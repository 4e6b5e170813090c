# WebP image conversion service — a Dafny model

This project models the core of an image-conversion service that turns
images and PDF documents stored in an S3-compatible bucket into WebP files.
The core is the class `ImageService`:

- the **key classifier**: an object is converted by the batch when its key,
  lower-cased, ends in `.png`, `.jpg`, `.jpeg` or `.pdf`;
- the **converter dispatch**: a lower-cased `.pdf` suffix selects the PDF
  path (render the first page at 300 DPI), anything else the raster path;
- the **destination key**: `"webp/" + key.substring(0, key.lastIndexOf('.')) + ".webp"`,
  which throws for a key without a `.`;
- the **single-object pipeline** `processImage`: download, convert, upload
  with content type `image/webp`, each step only after the previous one
  succeeded;
- the **listing**: the bucket's pages of keys, concatenated in order;
- the **batch** `processAllImages`: reset the `processedCount` counter, list
  every key, keep the admitted ones, convert each, count the successes and
  swallow every failure.

Modules:

- `Results` (`results.dfy`): `Option` and `Result`.
- `Keys` (`keys.dfy`): lower-casing, `endsWith`, the filter `Eligible`, the
  dispatch `ConverterFor`, Java's `lastIndexOf` and `substring`, `DestKey`.
  It also holds a reference classification `Classify`, written independently
  of the suffix tests: take the text after the last `.`, lower-case it and
  compare it with `pdf`, `png`, `jpg`, `jpeg`. The contracts of `Eligible`
  and `ConverterFor` state that the filter and the dispatch agree with it.
- `Conversion` (`conversion.dfy`): the collaborators (object store, image
  reader, PDF renderer, WebP writer) as functions that may fail, the two
  conversion paths, and `ProcessImage`, which returns how the conversion
  ended together with the calls it made, in order.
- `Listing` (`listing.dfy`): `ListObjects`, the flattening of pages.
- `Batch` (`image_service.dfy`): the specification functions `Attempted`,
  `Succeeded` and `BatchCalls`, the lemmas about them, and the class
  `ImageService` with its `processedCount` field, a ghost log of the calls
  made on the collaborators, and the methods `ProcessImage`,
  `ProcessAndCount` (the per-key handler), `FilterAndProcess` (one listed
  key) and `ProcessAllImages`, a loop over the listed keys.

Two behaviours of the single-object path are worth noting:

- It does not classify its key: any key not ending in `.pdf` takes the
  raster path (ImageService.java:116-123).
- A key without a `.` is downloaded and converted, and fails only when its
  destination key is cut (ImageService.java:70).

## Model

| member | source | states |
|---|---|---|
| `Keys.LowerKey` | src/main/java/br/com/officecom/image/service/ImageService.java:48 | `toLowerCase` keeps the length and lower-cases each character (ASCII letters) |
| `Keys.LastIndexOf` | src/main/java/br/com/officecom/image/service/ImageService.java:70 | the result is -1 exactly when the character is absent; otherwise it is an index holding the character with no occurrence after it |
| `Keys.Substring` | src/main/java/br/com/officecom/image/service/ImageService.java:70 | `substring(begin, end)` is defined exactly when `0 <= begin <= end <= length` (Java throws otherwise), and the result is the characters of `s` from `begin` up to, not including, `end` |
| `Keys.LowerKeyIdempotent` | src/main/java/br/com/officecom/image/service/ImageService.java:48 | lower-casing an already lower-cased key changes nothing |
| `Keys.Eligible` | src/main/java/br/com/officecom/image/service/ImageService.java:47-49 | the batch filter admits a key if and only if the text after its last `.`, lower-cased, is `png`, `jpg`, `jpeg` or `pdf` |
| `Keys.SuffixTestHasExtension` | src/main/java/br/com/officecom/image/service/ImageService.java:47-49 | a key that passes the suffix filter has a supported extension |
| `Keys.ExtensionPassesSuffixTest` | src/main/java/br/com/officecom/image/service/ImageService.java:47-49 | a key with a supported extension, in any case, passes the suffix filter |
| `Keys.EligibleIgnoresCase` | src/main/java/br/com/officecom/image/service/ImageService.java:47-49 | the filter and the dispatch give the same answer for a key and for its lower-cased form (`photo.PNG` and `photo.png` alike) |
| `Keys.ConverterFor` | src/main/java/br/com/officecom/image/service/ImageService.java:116-123 | for every key, admitted by the filter or not, the PDF converter is chosen if and only if the key's extension, lower-cased, is `pdf`; every other key, `x.txt` and `r.pdf.bak` included, takes the raster path |
| `Keys.DestKey` | src/main/java/br/com/officecom/image/service/ImageService.java:70-71 | the destination key exists if and only if the key contains a `.` (without one the derivation throws); it is `webp/`, then the key with its extension and the `.` before it removed, then `.webp` |
| `Keys.DestKeyOfSplit` | src/main/java/br/com/officecom/image/service/ImageService.java:70-71 | for any key `stem + "." + ext` with no `.` in `ext`, the destination is `"webp/" + stem + ".webp"` |
| `Keys.EligibleHasDestination` | src/main/java/br/com/officecom/image/service/ImageService.java:47-71 | every key the batch filter admits contains a `.`, so its destination is always defined |
| `Keys.DestKeyExample` | src/main/java/br/com/officecom/image/service/ImageService.java:70-71 | `a/b/photo.PNG` is written to `webp/a/b/photo.webp` |
| `Keys.DestKeyDottedDirectory` | src/main/java/br/com/officecom/image/service/ImageService.java:70-71 | the last `.` is searched in the whole key: `a.b/photo` is written to `webp/a.webp` |
| `Keys.DestinationNotEligible` | src/main/java/br/com/officecom/image/service/ImageService.java:47-71 | a destination key (ending in `.webp`) is never admitted by the filter, so converted output is never converted again |
| `Conversion.EncodeWebp` | src/main/java/br/com/officecom/image/service/ImageService.java:133-137 | encoding fails, with an encoding error, exactly when the WebP writer refuses the image, and a success returns the writer's bytes |
| `Conversion.ConvertImageToWebp` | src/main/java/br/com/officecom/image/service/ImageService.java:125-138 | an unreadable image fails with a decoding error; a readable one succeeds exactly when the WebP writer accepts it, with the writer's bytes, and otherwise fails with an encoding error |
| `Conversion.ConvertPdfToWebp` | src/main/java/br/com/officecom/image/service/ImageService.java:140-152 | the first page (0) is rendered at 300 DPI in RGB; a document that cannot be rendered fails with a decoding error; a rendered page succeeds exactly when the WebP writer accepts it, with the writer's bytes, and otherwise fails with an encoding error |
| `Conversion.ConvertToWebp` | src/main/java/br/com/officecom/image/service/ImageService.java:116-123 | the bytes of any key go to the PDF path if its extension is `pdf` in some case and to the raster path otherwise; conversion can only fail with a decoding or an encoding error |
| `Conversion.ProcessImage` | src/main/java/br/com/officecom/image/service/ImageService.java:63-75 | download comes first; conversion, with the dispatched converter, happens exactly when the download succeeded; the upload happens exactly when download, conversion and key derivation succeeded, and writes the converted bytes as `image/webp` under the derived key; success means the upload succeeded; a failed download is a download error, a run that stops after the conversion reports the converter's own error or, when the conversion succeeded, the index error of the missing `.`, and a failed upload is an upload error |
| `Conversion.ProcessImageSucceedsIff` | src/main/java/br/com/officecom/image/service/ImageService.java:63-75 | one conversion succeeds if and only if the download, the conversion, the key derivation and the upload all succeed |
| `Conversion.DotlessKeyFailsBeforeUpload` | src/main/java/br/com/officecom/image/service/ImageService.java:63-75 | a key without a `.` that downloads and converts takes the raster path, then fails with an index error and is never uploaded |
| `Conversion.DownloadsOwnKey` | src/main/java/br/com/officecom/image/service/ImageService.java:63-64 | converting an object downloads that object and no other |
| `Conversion.EligibleNeverIndexOutOfBounds` | src/main/java/br/com/officecom/image/service/ImageService.java:47-71 | a key the batch admits never fails for want of a destination key |
| `Conversion.UploadIsWebp` | src/main/java/br/com/officecom/image/service/ImageService.java:69-107 | every upload of a conversion has content type `image/webp`, goes to the key's destination, and is not itself admitted by the filter |
| `Listing.ListObjects` | src/main/java/br/com/officecom/image/service/ImageService.java:86-88 | the listing holds as many keys as all pages together |
| `Listing.ListObjectsAppend` | src/main/java/br/com/officecom/image/service/ImageService.java:86-88 | listing two runs of pages is listing the first, then the second |
| `Listing.ListObjectsPosition` | src/main/java/br/com/officecom/image/service/ImageService.java:86-88 | key `j` of page `i` sits in the listing right after all keys of the earlier pages: order is kept and nothing is lost or duplicated |
| `Listing.ListObjectsMembership` | src/main/java/br/com/officecom/image/service/ImageService.java:77-88 | a key is listed if and only if some page holds it |
| `Batch.Attempted` | src/main/java/br/com/officecom/image/service/ImageService.java:46-51 | the batch never converts more keys than are listed |
| `Batch.AttemptedMultiplicity` | src/main/java/br/com/officecom/image/service/ImageService.java:46-51 | the batch converts every admitted key once per listing of it, and never an ineligible key |
| `Batch.BatchCallsPerAttempted` | src/main/java/br/com/officecom/image/service/ImageService.java:46-75 | the calls the batch makes are exactly one whole download, convert and upload run per admitted key, in listing order, and no others; with `Batch.AttemptedMultiplicity`, each admitted key is converted once per listing of it |
| `Batch.SucceededMultiplicity` | src/main/java/br/com/officecom/image/service/ImageService.java:51-58 | the counter counts a key once per listing of it exactly when the filter admits it and its conversion succeeds, and counts nothing else |
| `Batch.CountIgnoresOrder` | src/main/java/br/com/officecom/image/service/ImageService.java:51-59 | the final count is the same for any reordering of the keys, so it does not depend on the order in which conversions complete |
| `Batch.CountBound` | src/main/java/br/com/officecom/image/service/ImageService.java:45-59 | the count is at most the number of admitted keys, which is at most the number of keys; the count equals the number of admitted keys if and only if every admitted key succeeds |
| `Batch.NothingFailsAllCounted` | src/main/java/br/com/officecom/image/service/ImageService.java:46-59 | when every admitted key converts successfully, the keys counted are exactly the admitted keys, in listing order |
| `Batch.BatchAppend` | src/main/java/br/com/officecom/image/service/ImageService.java:46-60 | the successes and the calls of a listing split into two parts are those of the first part followed by those of the second |
| `Batch.FailedKeyCountsNothing` | src/main/java/br/com/officecom/image/service/ImageService.java:56-58 | a key whose conversion fails adds nothing to the count |
| `Batch.FailureIsolated` | src/main/java/br/com/officecom/image/service/ImageService.java:56-59 | a failing key is swallowed: the count is that of the keys around it, and the keys after it are still converted |
| `Batch.DownloadsOnlyAttempted` | src/main/java/br/com/officecom/image/service/ImageService.java:46-64 | the batch downloads a key if and only if it is listed and admitted; ineligible keys are never downloaded |
| `Batch.UploadsAreDerived` | src/main/java/br/com/officecom/image/service/ImageService.java:46-107 | every upload of the batch is `image/webp`, goes to the destination of an admitted key, and is itself never admitted |
| `Batch.ReliableConversionSucceeds` | src/main/java/br/com/officecom/image/service/ImageService.java:63-75 | when no collaborator fails, every key with a `.` converts successfully |
| `Batch.MixedBucketScenario` | src/main/java/br/com/officecom/image/service/ImageService.java:44-75 | with `docs/report.pdf`, `img/x.png` and `img/notes.txt` and collaborators that never fail, the first two are converted to `webp/docs/report.webp` and `webp/img/x.webp`, the text file is skipped, and the count is 2 |
| `Batch.ImageService.constructor` | src/main/java/br/com/officecom/image/service/ImageService.java:35-42 | a new service holds its collaborators, a counter of 0 and an empty log |
| `Batch.ImageService.ProcessImage` | src/main/java/br/com/officecom/image/service/ImageService.java:63-75 | converting one object on request returns that object's outcome (failures included), appends its calls to the log and leaves the counter alone |
| `Batch.ImageService.ProcessAndCount` | src/main/java/br/com/officecom/image/service/ImageService.java:51-58 | the per-key handler of the batch adds one to the counter exactly when the conversion succeeds, swallows a failure, and appends the conversion's calls to the log |
| `Batch.ImageService.FilterAndProcess` | src/main/java/br/com/officecom/image/service/ImageService.java:47-58 | one listed key is dropped by the filter, or converted and counted exactly when its conversion succeeds; the log grows by its calls only when it is admitted |
| `Batch.ImageService.ProcessAllImages` | src/main/java/br/com/officecom/image/service/ImageService.java:44-61 | the counter restarts from 0 and ends at the number of listed keys that are admitted and convert successfully; the calls made are those of each admitted key, in listing order; the batch itself never fails |

## Left out

- Concurrency: `flatMap(…, 100)`, the `boundedElastic` scheduler and the race
  between two overlapping batches on the shared counter are not modelled;
  the batch runs one key at a time. `Batch.CountIgnoresOrder` shows that the
  final count does not depend on the order in which conversions finish.
- `Batch.ImageService.ProcessAllImages`: the counter is an unbounded `nat`;
  the 32-bit wrap-around of the `AtomicInteger` is not modelled.
- A failure of the listing itself (which fails the whole batch) is not
  modelled: the listing is given as a sequence of pages.
- The S3 transport (`downloadImage`, `uploadImage`, the paginator) and the
  bucket name every request carries are not modelled. Downloads and uploads
  are functions that may fail, and the pages are a parameter.
- The bucket is treated as a fixed snapshot during a batch. Uploads do not
  change what later downloads return. `Keys.DestinationNotEligible` shows
  that batch output is never read back by the batch.
- Decoding and encoding (ImageIO, PDFBox) are functions that may fail. A
  `null` image and an `IOException` both become a failure. The first-page,
  300 DPI and RGB parameters are passed to the renderer but not interpreted.
- Collaborators are deterministic functions of their inputs. Retries, and
  outcomes that change between calls, are not modelled.
- Lower-casing maps only `A`–`Z`. Java's `toLowerCase` also maps non-ASCII
  letters and depends on the locale. The four suffixes consist of ASCII
  characters that no non-ASCII letter lower-cases to, so the filter and the
  dispatch decide the same way.
- The reactive types (`Mono`, `Flux`) are not modelled. The result is
  computed eagerly rather than on subscription.
- Logging is not modelled.
- The HTTP controller and the client configuration are not part of this model.

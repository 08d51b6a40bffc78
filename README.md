# mpicture photo-sheet builder — a Dafny model

mpicture is a browser tool for police photo sheets ("照片黏貼表"). The user
collects photographs, annotates each one with a date, an address, a
description and, for traffic accidents, a checklist of what the picture shows,
reorders and rotates them, and exports the collection in one of three ways:

- a Word document, two pictures per page;
- a printable page set (the "PDF" export), two pictures per page;
- a zip archive of the photographs, renamed by position.

There are two sheet formats: criminal case (`"left"`) and traffic accident
(`"middle"`).

This project models the core of that tool:

- the shared application state and the operations that change it: importing
  a batch of files, the duplicate gate, drag-and-drop reordering, confirmed
  removal, the image being edited, rotation, and the per-image inputs;
- the capture-date formatting, the time stamp and the resize arithmetic;
- both exporters: per-picture values and page layout;
- the zip naming, the size slider buttons, the sidebar field visibility and
  the start-up guard.

## Modules

- `Wrappers` holds `Option`.
- `JsText` models the JavaScript built-ins the code relies on:
  - `split` / `join` / `pop`;
  - `toLowerCase` / `endsWith` / `trim`;
  - `parseInt` and `String(n)`;
  - `splice`;
  - the truncating `%`.
- `AppState` (`js/state.js`) is the shared `state` object. It is a class
  whose fields the other modules reassign. Its invariant `Valid()` says:
  - ids are distinct;
  - every image has a checklist entry;
  - no side map holds an id that is not in the collection;
  - stored angles lie in 0..359.
- `Utils` covers `js/utils.js`.
- `ImageHandler` covers `js/imageHandler.js`.
- `FormText` holds the text both exporters build the same way:
  - the checklist line;
  - the `編號(n)` label;
  - the page count.

  The source writes each of these twice, once in each exporter; the model
  defines each once and lets each exporter supply its own check-box glyph.
- `DocxGenerator` covers `js/docxGenerator.js`.
- `PdfGenerator` covers `js/pdfGenerator.js`.
- `AppMain` covers `js/main.js`.
- `ExportAgreement` relates the two exporters. The same collection gives:
  - the same number of pages;
  - the same picture at the same place;
  - the same date, address, description, label and checklist choices.

Each layout loop is a method proved equal to a layout function. The page
structure is then proved about that function:

- the document body is cut at its page breaks;
- page `p` holds pictures `2p+1` and `2p+2`;
- there are ⌈N/2⌉ pages;
- the traffic body has N−1 blank paragraphs and ⌊(N−1)/2⌋ breaks.

## Model

| member | source | states |
|---|---|---|
| AppState.State.constructor | js/state.js:3-16 | The initial state: an empty collection and empty side maps, counter 0, not generating, not initialised, criminal format, grid view, nothing being edited. The invariant holds. |
| AppState.AccidentTagOptions | js/state.js:19-33 | Thirteen options with pairwise distinct ids. The first is "scene" (現場全景). The free-text `other` option is the last, and only the last. |
| AppState.FormatNames | js/state.js:36-39 | Exactly the two formats `left` and `middle`, with short names 刑案 and 交通事故. |
| AppState.FormatTitles | js/state.js:42-45 | Exactly the two formats, with their sheet titles. |
| JsText.NatToStringRoundTrip | js/main.js:154 | `String(n)` reads back as `n`. |
| JsText.NatToStringInjective | js/main.js:154 | Different numbers print differently. |
| JsText.SplitJoin | js/pdfGenerator.js:11-23 | Joining fields that do not contain the separator, then splitting, gives the fields back. |
| JsText.SplitCountsSeparators | js/docxGenerator.js:448-450 | Splitting gives one more piece than there are separators. |
| JsText.LastField | js/main.js:153 | `split(sep).pop()` is the separator-free tail of the string that is either the whole string or starts right after a separator; with no separator it is the whole string. |
| JsText.LastFieldAfter | js/main.js:153 | Whatever precedes the last separator, the popped field is the text after it. |
| JsText.JsRem | js/imageHandler.js:708 | JavaScript's `%`: the usual remainder for a non-negative left operand; for a negative one, a value in (−b, 0] equal to the dividend minus b times the quotient truncated toward zero. |
| JsText.ParseIntOfNatToString | js/utils.js:172 | `parseInt` of a decimal numeral gives its value. |
| Utils.PadStart2 | js/utils.js:159-162 | Below 100, two digits that read back as the value. |
| Utils.LastTwoIsPadStart2 | js/utils.js:185-189 | The `("0"+n).slice(-2)` idiom equals `padStart(2,"0")` below 100. |
| Utils.LastTwoReadsBack | js/utils.js:185-189 | Each two-character field of the stamp reads back as its number. |
| Utils.FormatExifDateEmptyIff | js/utils.js:153-175 | The result is "" exactly when the value is falsy, or neither a string nor a date, or a string without a non-empty date part and time part. |
| Utils.FormatExifDateOfExifString | js/utils.js:169-174 | "Y:M:D h:m:s" becomes "(Y−1911)/M/D h:m". Month, day, hour and minute pass through verbatim; the seconds are dropped. |
| Utils.RocYearTextOfNat | js/utils.js:172 | A decimal year `y` is printed as `y − 1911`. |
| Utils.DateAndExifStringAgree | js/utils.js:157-174 | A capture time handed over as a `Date` and the same time as an EXIF string are formatted identically. |
| Utils.GetFormattedDateFields | js/utils.js:180-191 | The stamp is the ROC year, then two characters each for month and day, "_", then hour and minute. Each field sits at a fixed offset. |
| Utils.ThumbnailSize | js/utils.js:87-101 | Agrees branch for branch with the fit-longest-side rule at 800. |
| Utils.DocResizeSize | js/utils.js:122-134 | Agrees with the fit-longest-side rule at 1200. |
| Utils.FitLongestSideProperties | js/utils.js:122-134 | The fitted size never enlarges and stays within the limit. It is the original exactly when the original fits; otherwise the longer side is the limit. The aspect ratio holds up to truncation. |
| ImageHandler.HeicRenameChangesOnlyHeicNames | js/imageHandler.js:123 | The name changes iff it has a HEIC suffix. The new name then ends in `.jpg` and is one character shorter. |
| ImageHandler.FirstTruthy | js/imageHandler.js:102-105 | `a \|\| b \|\| c`: the first truthy value, else the last. |
| ImageHandler.HeicDate | js/imageHandler.js:99-111 | A date is produced iff there is metadata and one of its three time fields is truthy; it is the formatted original time if truthy, else the creation time if truthy, else the modification time. |
| ImageHandler.ProcessFile | js/imageHandler.js:29-137 | A file yields a record iff it decodes and, when it is HEIC, converts. A HEIC record carries the renamed name and the converted size; any other record carries the original name and size and the formatted tag date. The record keeps the given id and takes the decoded data URL, thumbnail, width and height. |
| ImageHandler.HeicDateWins | js/imageHandler.js:45-60 | A HEIC file's metadata date, even an empty one, is the record's date. |
| ImageHandler.HeicWithoutDateUsesTag | js/imageHandler.js:62-66 | Without a metadata date, a HEIC file takes the decoded image's tag. |
| ImageHandler.IsDuplicateImageIff | js/imageHandler.js:179-187 | A duplicate is exactly a record that matches on name, size, width and height. |
| ImageHandler.IsDuplicateIgnoresIdDataDate | js/imageHandler.js:179-187 | Id, data URLs and date play no part in the test. |
| ImageHandler.AddOne | js/imageHandler.js:159-174 | The record is appended iff it is not a duplicate or the user said yes; otherwise nothing changes. |
| ImageHandler.AddAll | js/imageHandler.js:142-146 | Offering a batch keeps the old prefix and only appends records of the batch. |
| ImageHandler.AddAllYes | js/imageHandler.js:142-146 | With every answer "yes", the whole batch is appended in submission order. |
| ImageHandler.AddOneThenRemove | js/imageHandler.js:590 | Removing a freshly offered record by its id restores the collection. |
| ImageHandler.HandleImageAddition | js/imageHandler.js:159-174 | The collection becomes `AddOne`. A record that was appended gets an empty checklist entry. The invariant is kept. |
| ImageHandler.ConsistentAppend | js/imageHandler.js:192-193 | Appending a fresh record with an empty checklist keeps the invariant. |
| ImageHandler.AddImageToCollection | js/imageHandler.js:192-193 | The record is pushed, and its checklist entry is created as at lines 287-289. |
| ImageHandler.CheckAllResolve | js/imageHandler.js:142-153 | True iff every file of the batch yields a record (`Promise.all`). |
| ImageHandler.BatchRecords | js/imageHandler.js:142-146 | The records of a resolved batch, in file order, with the files' ids. |
| ImageHandler.OfferBatch | js/imageHandler.js:146 | The collection becomes `AddAll` of the batch and the answers. The checklist map only gains empty entries. |
| ImageHandler.ProcessFiles | js/imageHandler.js:27-153 | If any file rejects, nothing changes. Otherwise the batch is offered in order. |
| ImageHandler.MovePermutes | js/imageHandler.js:453-454 | The two splices of a drop permute the collection. |
| ImageHandler.MovePlacesAndKeepsOrder | js/imageHandler.js:453-454 | The moved record lands at the drop index; the others keep their relative order. |
| ImageHandler.MoveOntoItselfAndBack | js/imageHandler.js:453-454 | A drop onto its own place changes nothing, and moving back undoes a move. |
| ImageHandler.MoveKeepsIds | js/imageHandler.js:453-454 | A move keeps the ids and their distinctness. |
| ImageHandler.ConsistentMove | js/imageHandler.js:453-454 | A move keeps the invariant. |
| ImageHandler.HandleImageDrop | js/imageHandler.js:441-463 | A found card dropped elsewhere moves its record to the drop index and recounts (line 480). Otherwise nothing changes. |
| ImageHandler.FilterOutIds | js/imageHandler.js:590 | The filter removes exactly that id from the id set. |
| ImageHandler.FilterOutAt | js/imageHandler.js:590 | With distinct ids, filtering removes exactly the one record that carries the id. |
| ImageHandler.FilterOutAbsent | js/imageHandler.js:590 | Filtering by an absent id changes nothing. |
| ImageHandler.FilterOutAppend | js/imageHandler.js:590 | Filtering out the id of a record just appended undoes the append. |
| ImageHandler.FilterOutDistinct | js/imageHandler.js:590 | Filtering keeps the ids distinct. |
| ImageHandler.ConsistentRemove | js/imageHandler.js:590-595 | Filtering, plus deleting the id from every side map, keeps the invariant. |
| ImageHandler.RemoveImage | js/imageHandler.js:570-595 | A declined confirmation changes nothing. Once confirmed, an edited image with this id is released, the record is filtered out, the id is deleted from all five maps and the counter is recounted. |
| ImageHandler.SetEditingImage | js/imageHandler.js:662-686 | The edited image becomes the given id, or none. |
| ImageHandler.CancelEditing | js/imageHandler.js:690-692 | No image is being edited. |
| ImageHandler.HandleImageClick | js/imageHandler.js:804-825 | Clicking the edited image releases it; clicking any other makes it the edited one. |
| ImageHandler.NextRotation | js/imageHandler.js:708 | The new angle lies in 0..359. |
| ImageHandler.NextRotationValue | js/imageHandler.js:708 | A quarter turn adds or subtracts 90, wrapping at 360. |
| ImageHandler.RotationRoundTrip | js/imageHandler.js:708 | Opposite quarter turns cancel, and four equal quarter turns restore the angle. |
| ImageHandler.FindIndex | js/imageHandler.js:701-703 | `find`: the first index that carries the id, or none exactly when the id is absent. |
| ImageHandler.Rotated | js/imageHandler.js:714-721 | The record keeps id, name, size and date, takes the rotated data and thumbnail, and has width and height exchanged. |
| ImageHandler.ConsistentRotate | js/imageHandler.js:708-721 | Replacing a record by one with the same id, and storing an angle in range, keeps the invariant. |
| ImageHandler.RotateImage | js/imageHandler.js:698-721 | With no edited image, or none found, nothing changes. Otherwise the angle advances modulo 360, and the record takes the rotated data with width and height exchanged. |
| ImageHandler.SetImageText | js/imageHandler.js:238-271 | The date, address or description input stores its text under the id; the other two maps are unchanged. |
| ImageHandler.SetTagChecked | js/imageHandler.js:327-337 | The option is recorded as ticked iff the box is checked; the rest of the checklist map is unchanged. |
| ImageHandler.SetOtherText | js/imageHandler.js:316-318 | The `other` text of that image is replaced. |
| FormText.CaptionsHaveNoSpace | js/state.js:19-33 | No option caption contains a space. |
| FormText.TagsLineDecodes | js/pdfGenerator.js:11-23 | The space-joined line splits back into the twelve fixed fragments, followed by the pieces of the `other` fragment. |
| FormText.TagsLinesAgree | js/pdfGenerator.js:11-23 | Two box glyphs give fragments with equal captions and the same ticked options. |
| FormText.LabelInjective | js/docxGenerator.js:334 | Different picture numbers give different `編號(n)` labels. |
| FormText.PageCount | js/pdfGenerator.js:199 | `(n+1)/2` is ⌈n/2⌉, and it is zero iff n is zero. |
| DocxGenerator.SnapshotKeepsAnnotations | js/docxGenerator.js:40-52 | Each snapshot entry carries that image's stored description, date and address, and its checklist. |
| DocxGenerator.DisplayDate | js/docxGenerator.js:278-285 | The custom date wins. Otherwise the image date is used under auto-date, then the manual date. The result is empty iff all the applicable ones are empty. |
| DocxGenerator.DisplayAddress | js/docxGenerator.js:287 | The custom address, else the case address. |
| DocxGenerator.DisplaySize | js/docxGenerator.js:289-296 | The picture fits the box, keeps its aspect ratio and touches the box in one dimension. |
| DocxGenerator.CreateImageTable | js/docxGenerator.js:270-420 | A picture table with label `編號(index)`, the image data, the displayed size, date and address (DisplaySize, DisplayDate, DisplayAddress), the case number as photographer and the description, then a blank paragraph. |
| DocxGenerator.TrafficImageTable | js/docxGenerator.js:455-566 | A traffic table with number `index`, the image data, the displayed size and date (DisplaySize, DisplayDate) and that image's checklist. |
| DocxGenerator.PictureTables | js/docxGenerator.js:190-225 | One picture table per image, numbered from 1. |
| DocxGenerator.CreateImageTables | js/docxGenerator.js:190-225 | The loop builds exactly the criminal layout function. |
| DocxGenerator.CriminalPages | js/docxGenerator.js:190-225 | Cut at page breaks, the body has ⌈N/2⌉ pages. Page p is the header, then pictures 2p+1 and 2p+2. |
| DocxGenerator.CriminalPictureSlot | js/docxGenerator.js:192-215 | Picture k sits on page k/2 at block 1+2(k%2), after the header table. A page has 5 blocks, or 3 when it holds one picture. |
| DocxGenerator.CriminalCounts | js/docxGenerator.js:192-222 | The body has ⌈N/2⌉ header tables and ⌈N/2⌉−1 page breaks. |
| DocxGenerator.TrafficTables | js/docxGenerator.js:432-442 | One traffic table per image, numbered from 1. |
| DocxGenerator.SeparatorsByPosition | js/docxGenerator.js:444-450 | After an even picture that is not last: one blank. After an odd picture that is not last: a blank and a page break. After the last picture: nothing. |
| DocxGenerator.CreateTrafficAccidentContent | js/docxGenerator.js:424-453 | The loop builds exactly the traffic layout function. |
| DocxGenerator.TrafficPages | js/docxGenerator.js:432-451 | Cut at page breaks, the body has ⌈N/2⌉ pages. Page p holds pictures 2p+1 and 2p+2. |
| DocxGenerator.TrafficPictureSlot | js/docxGenerator.js:432-451 | Picture k sits on page k/2 at block 2(k%2). A page has 4 blocks when a page follows it, 3 when it is the last with two pictures, and 1 otherwise. |
| DocxGenerator.TrafficBlankBeforeBreak | js/docxGenerator.js:444-450 | Every page but the last ends with a blank paragraph. |
| DocxGenerator.TrafficCounts | js/docxGenerator.js:432-451 | The body has N−1 blank paragraphs and ⌊(N−1)/2⌋ page breaks. |
| DocxGenerator.CreateDocument | js/docxGenerator.js:113-176 | A document exists iff the format is known. It carries the format's title and that format's layout. |
| DocxGenerator.GenerateSpec | js/docxGenerator.js:32-89 | An empty collection gives no document. A document is saved iff all resizes succeed and the format is known. It is titled by the format, its body is the format's layout of the snapshot, and it is named `<short name>照片黏貼表_<ROC stamp>.docx`. |
| DocxGenerator.HandleGenerate | js/docxGenerator.js:32-89 | The outcome is that function of the state, the resize results, the form and the clock. |
| DocxGenerator.HandleGenerateWrapper | js/docxGenerator.js:11-30 | A second request while one is running does nothing. Otherwise the flag is raised and the export runs. |
| DocxGenerator.ReleaseGenerating | js/docxGenerator.js:26-28 | The flag is lowered. |
| PdfGenerator.ResolveDate | js/pdfGenerator.js:206-208 | The custom date, else (under auto-date) the image date, else the manual date. The result is empty iff all the applicable ones are empty. |
| PdfGenerator.BuildCriminalPage | js/pdfGenerator.js:202-274 | One turn of the loop builds exactly page p. |
| PdfGenerator.BuildTrafficPage | js/pdfGenerator.js:288-347 | One turn of the loop builds exactly page p. |
| PdfGenerator.BuildCriminalContent | js/pdfGenerator.js:189-278 | The loop builds exactly the criminal content. |
| PdfGenerator.BuildTrafficAccidentContent | js/pdfGenerator.js:283-351 | The loop builds exactly the traffic content. |
| PdfGenerator.CriminalPictureSlot | js/pdfGenerator.js:212-272 | Picture k sits on page k/2 at block 1+2(k%2), after the heading and a spacer. Only the first picture of a page carries the case-header row. |
| PdfGenerator.TrafficPictureSlot | js/pdfGenerator.js:298-344 | Picture k sits on page k/2 at block 1+2(k%2). |
| PdfGenerator.PrintSpec | js/pdfGenerator.js:28-84 | No print job iff the collection is empty. A job has that title; its pages are the criminal-case or traffic-accident content (⌈N/2⌉ pages) for a known format, and there are none for an unknown one. |
| PdfGenerator.HandleGeneratePDF | js/pdfGenerator.js:28-84 | The outcome is that function of the state's format, collection and maps. |
| ExportAgreement.DatesAgree | js/pdfGenerator.js:206-208 | The two exporters choose the same display date. |
| ExportAgreement.CriminalTablesAgree | js/pdfGenerator.js:206-238 | For picture k, both exporters give the same label, date, photographer, address and description. |
| ExportAgreement.TrafficTablesAgree | js/pdfGenerator.js:292-316 | For picture k, both give the same date, number and checklist, and their checklist fragments agree on captions and ticks. |
| ExportAgreement.CriminalPageCountsAgree | js/pdfGenerator.js:199-202 | The Word body has as many pages as the print job: ⌈N/2⌉. |
| ExportAgreement.CriminalHeadersAgree | js/pdfGenerator.js:212-218 | Both put the same case reason and unit at the head of every page. |
| ExportAgreement.CriminalSlotsAgree | js/pdfGenerator.js:223-272 | Picture k is on the same page in both, with the same label. |
| ExportAgreement.TrafficPageCountsAgree | js/pdfGenerator.js:285-288 | The Word body has as many pages as the print job: ⌈N/2⌉. |
| ExportAgreement.TrafficSlotsAgree | js/pdfGenerator.js:298-344 | Picture k is on the same page in both, with the same number. |
| AppMain.BuildZipEntries | js/main.js:151-157 | The loop builds exactly those entries. |
| AppMain.DownloadZip | js/main.js:131-169 | Nothing to zip iff the collection is empty. Otherwise the trimmed prefix names the archive and its entries. |
| AppMain.EntryKeepsExtension | js/main.js:153-154 | An entry name ends in the original file's extension. |
| AppMain.EntryNamesDistinct | js/main.js:154 | Entries at different positions have different names, whatever the original names. |
| AppMain.SizeDown | js/main.js:268-275 | `max(min, value−40)`. |
| AppMain.SizeUp | js/main.js:278-285 | `min(max, value+40)`. |
| AppMain.SizeButtonsKeepRange | js/main.js:268-285 | The buttons keep the value in range, move it the right way, and undo each other away from the ends. |
| AppMain.SingleFormatField | js/main.js:66-67 | A field tagged with one format is shown iff that format is selected. |
| AppMain.TwoFormatField | js/main.js:66-67 | A field tagged with two formats is shown iff either is selected. |
| AppMain.UpdateSidebarFields | js/main.js:61-72 | Each field is shown ("") iff its format list includes the selected format, and hidden ("none") otherwise. |
| AppMain.Init | js/main.js:87-100 | Start-up always marks the state initialised. Handlers are wired iff it was not initialised before and the required elements exist. |

## Left out

**Browser and I/O**
- The DOM, canvas drawing and image decoding are out of scope.
- Metadata readers (EXIF.js, exifr) and HEIC conversion are out of scope.
- Their results are passed in as values (`FileInput`, the rotated data, the resize results).
- Confirmation dialogs are yes/no inputs.

**Timing**
- Asynchrony and the interleaving of promises are not modelled: the batch of `processFiles` is handled as one step.
- RotateImage: the new angle is stored before the rotated data is awaited; the model makes both one step, so it does not capture the case where the image never loads (that promise has no reject path) and the angle has advanced while the record stays unrotated.
- The 1000 ms release of the generating flag is the separate `ReleaseGenerating`.
- The minimum display times of the modals are not modelled.

**Inputs and simplifications**
- Id generation (`Date.now() + Math.random()`): fresh ids are a precondition of adding.
- The print window's HTML and CSS (`buildPrintHTML`) and HTML escaping are out of scope.
- The print content is modelled as a sequence of pages, not a string.
- The docx library's styles, footer and packing (`createDocumentStyles`, `createDefaultFooter`) are out of scope.
- Both exporters' traffic tables hold the checklist itself. `DescriptionText` renders it into the text the source writes in place.
- Picture sizes in the Word document are exact reals, so floating-point rounding is not modelled.
- Utils.ThumbnailSize, Utils.DocResizeSize: the canvas sizes are computed exactly and then truncated. The source multiplies by a floating-point factor (`height * (max / width)`), which can land one pixel lower when the exact quotient is whole; that rounding is not modelled.
- JsText.ToLower: folds ASCII letters only; other letters keep their case.
- JsText.Trim: its contract states only that the result is no longer than the input and has no white space at either end, not which slice of the input it is.
- The zip library is out of scope. An entry's payload is `None` where the data URL has no comma (`undefined` in the source).
- Slider values are integers. `parseInt` returning `NaN` is not modelled.
- Image width and height are positive.
- Zero-pixel images are not modelled.
- Record dates are strings, "" standing for the empty date.
- The list view of the preview, drag visuals, counters on the cards and toasts are out of scope.

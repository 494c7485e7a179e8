# Image converter: conversion pipeline model

This project is a Dafny model of the conversion core of a small desktop
tool. The tool turns an ordered list of images into one of two archives:

- a comic-book archive (CBZ): a zip of JPEG pages named `page_NNN.jpg`;
- an EPUB 2 e-book: a zip holding the `mimetype` file, `META-INF/container.xml`,
  `OEBPS/content.opf`, `OEBPS/toc.ncx`, one XHTML page per saved image and
  the images themselves.

The work runs on a background thread, `ImageConverterWorker`. It reports
progress, status text and per-image results as signals. It stops
cooperatively when the interface clears its `is_running` flag. The window
class, `ImageConverterApp`, checks the inputs, cleans the file name, lets
the user reorder the list and shows it as numbered labels.

## What the model covers

The worker's signals are one event stream (`Events.Event`). The five
signals become the constructors `StartLoading`, `StopLoading`, `Progress`,
`Status` and `Result`.

- **Cancellation (`Cancel`).** The cancellation flag is a `Stop`: either
  never cleared, or cleared before the worker's read number `k`.
  `Cancel.InterleavingIsAStop` shows this covers every interleaving of the
  worker's reads with `stop()` calls.
- **Faults (`Zip.Fault`).** An I/O error that aborts a job names the step
  that raises and the exception's text. The steps are: making the output
  folder, the working directory, writing the e-book's documents, and opening
  the zip.
- **Images (`Pages.Source`).** Each input image either decodes to a raster
  (mode and size) or fails with a message.
- **The image loop (`Pages`).** Both builders share it.
  - `Pages.Loop` is the loop as written: one flag read per iteration.
  - `Pages.ExpectedEvents` and `Pages.ExpectedPages` are a reference
    description without the loop.
  - `Pages.LoopCharacterised` connects the two.
- **The builders (`Cbz.CreateCbz`, `Epub.CreateEpub`).** Each returns a
  `Zip.Build`:
  - the events it emits;
  - the number of flag reads it made;
  - the archive it wrote, if any: its entries and a snapshot of the working
    directory they were taken from;
  - the exception that escaped, if any.
- **The run (`Worker.Run`).** It puts a builder inside `run`: the output
  path, the "creating" status, the dispatch on the format, the final flag
  read, and the general failure handler.
- **The documents (`Markup`).** The three EPUB documents are modelled as
  their exact line lists. Each has a reader that takes back what a reading
  system follows (`Markup.ReadRootfile`, `Markup.ReadPackage`,
  `Markup.ReadNavTarget`, `Markup.ReadImageRef`). `Reading` shows that every
  reference in a written book resolves to the file the job wrote for it.
- **The window (`App`).** It models:
  - the start checks and the name cleaning of `start_conversion`;
  - `move_up` and `move_down`;
  - the labels of `update_file_list`.

The model follows the code wherever it departs from the behaviour its design
suggests:

- A failed image emits its failure result and no progress report. The
  `continue` skips the progress line.
- A cancelled job emits no final result at all: `run` simply reports
  nothing after the builder returns (`Worker.StoppedAtOnce`).
- A stop during the writing of the XHTML pages still zips the book, with
  pages missing that the package document lists
  (`Epub.EpubStoppedDuringPages`).
- A format other than "cbz" or "epub" writes nothing, yet reports success
  (`Worker.UnknownFormat`).
- Page file names are meant to sort in page order, but that holds only up
  to page 999: `page_1000.jpg` sorts before
  `page_999.jpg`. So a comic with 1000 or more pages is zipped out of order
  (`Naming.PageOrderBreaksAt1000`, `Cbz.CbzPagesOutOfOrderFrom1000`).
- The cleaned file name can be empty: the emptiness check runs before the
  cleaning (`App.EmptyNameLaunches`).
- A job whose every image failed still reports success once its empty
  archive is written. Success depends only on the final flag read and on
  no exception escaping (`Worker.RunSuccess`).

## Model

| member | source | states |
|---|---|---|
| Cancel.StaysStopped | main.py:282-283 | `stop()` only ever clears the flag, so once a read sees it cleared every later read does too |
| Cancel.Allowed | main.py:71-73 | the number of reads, from a given one on, that see the flag set before the first that sees it cleared; every counted read sees it set and the next does not |
| Cancel.InterleavingIsAStop | main.py:282-283 | whatever the interleaving of the worker's flag reads with the interface's `stop()` calls, the values read are those of one `Stop` |
| Progress.ImagePercent | main.py:94-95 | the percentage after image `i` never exceeds the phase's span and equals it after the last image |
| Progress.ImagePercentIsFloor | main.py:94 | the percentage is `(i + 1) * span / total` rounded down |
| Progress.ImagePercentMonotone | main.py:161-162 | a later image never reports a smaller percentage than an earlier one |
| Image.Normalize | main.py:78-83 | a page keeps its size; exactly RGBA, LA and P images are flattened onto a white RGB canvas through their alpha band, and every other image is saved as it is |
| Image.NormalizeIdempotent | main.py:144-149 | a normalised page would not be flattened again |
| Image.NormalizedPageIsOpaque | main.py:144-149 | the saved page's mode is never RGBA, LA or P, the three modes the flattening handles |
| Text.PadDecimalRoundTrip | main.py:86 | a zero-padded page number reads back as the number |
| Text.PadDecimalInjective | main.py:528 | different numbers get different padded fields |
| Text.BasenameIsLastComponent | main.py:91 | `os.path.basename` gives the longest suffix without a '/', preceded by a '/' or nothing |
| Text.BasenameOfJoin | main.py:41-43 | joining a plain file name onto a folder keeps it as the base name of the output path |
| Naming.PageNameInjective | main.py:86-88 | two page numbers never share a file name, so no saved page overwrites another |
| Naming.PageNamesSortInPageOrder | main.py:86-101 | for pages 1 to 999, page file names compare in Python's string order as their page numbers do |
| Naming.PageOrderBreaksAt1000 | main.py:86-101 | `page_1000.jpg` sorts before `page_999.jpg` |
| Lex.SortNames | main.py:101 | `sorted` returns a sorted permutation of the listing |
| Lex.SortedUnique | main.py:101 | two sorted arrangements of the same names are equal |
| Lex.ListingOrderIrrelevant | main.py:101 | the order `os.listdir` returns names in does not change the sorted listing |
| Lex.SortNamesReorders | main.py:101 | a list with an adjacent pair out of order is not what `sorted` returns |
| Pages.LoopCharacterised | main.py:71-95 | after `n` iterations, the loop has processed exactly the first `m` images that the flag let it start, emitting the reference events and saving the reference pages, and returned iff `m < n` |
| Pages.PhaseCharacterised | main.py:137-162 | the whole image loop of a job equals the reference description for the images the flag let through |
| Pages.PhaseEnd | main.py:164-165 | an uncancelled loop has processed every image; a builder gets past the loop iff it was not cancelled and the next read sees the flag set |
| Pages.ExpectedPagesAreTheDecoded | main.py:75-92 | the saved pages are exactly the decoded inputs, normalised, each once, numbered by input position, in input order |
| Pages.EachImageOnce | main.py:75-95 | every failed image gives one failure result and every decoded image a saved page, so none is lost or counted twice; images give no success result |
| Pages.ExpectedProgress | main.py:94-95 | the image loop's progress never goes down, stays within 0 to the span, and the loop emits no loading signal |
| Pages.LastImageReachesSpan | main.py:94-95 | when the last image decodes, its progress report is exactly the span |
| Zip.PageFilesContents | main.py:86-88 | the working directory holds every saved page under its own name, with its own normalised image |
| Zip.PageFilesOnly | main.py:86-88 | the snapshot of the working directory holds nothing but the pages this job saved, given that the directory starts empty |
| Cbz.ZipLoop | main.py:101-104 | the zip loop writes one deflated entry per listed name while reads see the flag set, stops at the first read that sees it cleared, and counts its reads |
| Cbz.ZipLoopEntries | main.py:101-104 | the entries written are the deflated entries of a prefix of the listing, as long as the reads allowed |
| Cbz.CreateCbz | main.py:63-107 | the CBZ builder emits no loading signal and no success result, its progress stays within 0 to 90 and rises, and it writes no archive when it raises |
| Cbz.CbzEvents | main.py:63-99 | the builder emits nothing when the working directory fails; otherwise it emits the events of the images the flag let through, then the CBZ status iff the zip is reached |
| Cbz.CbzOutcome | main.py:66-100 | the builder raises iff the working directory fails, or the zip is reached and cannot be opened; it writes an archive iff the zip is reached and opened |
| Cbz.CbzArchive | main.py:97-104 | a written CBZ holds the sorted saved page names, deflated, cut where a zip-loop read sees the flag cleared, over a working directory of the saved pages |
| Cbz.CbzFinalRead | main.py:98-104 | if nothing was raised and the read after the builder sees the flag set, the zip was reached and a written archive holds every listed name |
| Cbz.CbzWithoutStop | main.py:63-104 | without a stop or an I/O error, the builder emits every image's event and the status, and zips every saved page in sorted order |
| Cbz.CbzPagesInInputOrder | main.py:86-101 | with at most 999 inputs, the sorted listing is the saved pages in input order |
| Cbz.CbzPagesOutOfOrderFrom1000 | main.py:86-101 | with 1000 or more decoded inputs, the sorted listing is not the input order |
| Epub.MarkupLoop | main.py:259-261 | the page-markup loop writes pages while reads see the flag set and returns at the first read that sees it cleared |
| Epub.MarkupFilesContents | main.py:278-280 | pages 1 to `w` are written under their own paths, each showing its own image file, and nothing else |
| Epub.WalkEntriesNames | main.py:185-191 | the walk loop writes exactly the walked paths whose file name is not `mimetype` |
| Epub.WalkEntriesDistinct | main.py:185-191 | a walk that visits each path once writes each entry once |
| Epub.MimetypeAtRoot | main.py:120-121 | the media type file at the root of the working directory has base name `mimetype` |
| Epub.EntriesComplete | main.py:180-191 | with a walk that visits each file once and only the root file named `mimetype`, the archive holds every file of the tree exactly once |
| Epub.BookNamesMimetypeOnce | main.py:185-188 | only the root media type file of a book is named `mimetype`, so the walk skips nothing else |
| Epub.BookTreeImages | main.py:152-155 | every saved image is in the book under OEBPS/images/ with its own picture |
| Epub.BookTreePages | main.py:259-280 | pages 1 to `w` are in the book under OEBPS/pages/, each showing its own image file; later pages are missing |
| Epub.EpubEvents | main.py:109-178 | the EPUB builder emits nothing when the working directory fails; otherwise the events of the images the flag let through, then the status and 90 % iff the loop completed and the documents were written |
| Epub.EpubOutcome | main.py:109-180 | the builder raises, with the fault's text, iff the working directory fails or, after a completed loop, the documents or the zip fail; it writes an archive iff the zip is reached and opened |
| Epub.EpubArchive | main.py:174-191 | a written EPUB holds the stored media type, then the walked files, over a tree whose page markup stops where a page-loop read saw the flag cleared |
| Epub.EpubFinalRead | main.py:164-191 | if nothing was raised and the read after the builder sees the flag set, a written book has every page's markup |
| Epub.EpubStoppedDuringPages | main.py:255-280 | a stop during the page loop still zips the book; its package document lists the next page's markup, which the tree lacks |
| Epub.BookMissingPage | main.py:201-206 | when the page loop stopped after `w` of the saved images, the manifest lists page `w + 1`, whose markup file is not in the tree |
| Epub.EpubWithoutStop | main.py:109-191 | without a stop or an I/O error, the builder emits every event and writes the whole book |
| Epub.EpubComplete | main.py:180-191 | a written EPUB whose walk visits each file once starts with `mimetype` and holds each file of its tree exactly once |
| Markup.ContainerNamesPackage | main.py:124-129 | container.xml names OEBPS/content.opf as the package document |
| Markup.ManifestItems | main.py:201-205 | the saved image at position `i` gives page entry `i + 1` and then image entry `i + 1`, naming that image's file |
| Markup.SpineIds | main.py:206 | the spine refers to the page entries in saved order |
| Markup.PackageRoundTrip | main.py:196-227 | reading content.opf back gives the ncx entry (on its own, more deeply indented line), the manifest entries and the spine it was written with |
| Markup.CoverIsFirstImage | main.py:205-215 | the cover id the metadata names is the first image's id |
| Markup.CoverListed | main.py:205-218 | the cover is a manifest entry iff at least one image was saved |
| Markup.CoverMissingWhenEmpty | main.py:215-219 | with no saved image the metadata names a cover that the manifest lacks |
| Markup.NavRoundTrip | main.py:229-253 | whatever the title, toc.ncx's navigation entry reads back as pages/page_001.xhtml |
| Markup.PageRoundTrip | main.py:263-276 | a page's markup reads back to the image reference it was written with |
| Markup.ReferencesAgree | main.py:204-274 | a page's image reference and the manifest's image entry resolve to the same file under OEBPS/images/; a page entry resolves to its markup file |
| Reading.ContainerFindsPackage | main.py:123-131 | container.xml in the book names the package document, which the book holds |
| Reading.PackageReadsBack | main.py:196-227 | the package document in the book reads back to the manifest and spine of the saved images |
| Reading.SpineFollowsManifest | main.py:201-206 | the spine lists the pages in order, each by the id of its manifest entry, an XHTML page |
| Reading.ImageEntriesResolve | main.py:201-205 | each image entry of the manifest resolves to the JPEG the image loop saved for it |
| Reading.PageEntriesResolve | main.py:255-280 | each page entry resolves to a page's markup path, which is in the book iff the page loop reached it, showing its own image |
| Reading.PagesShowTheirImages | main.py:259-280 | each written page shows, through its relative reference, the JPEG saved for the image at the same position |
| Reading.NavTargetResolves | main.py:247 | the navigation entry's target is in the book iff at least one page's markup was written |
| Worker.RunBracketed | main.py:31-61 | every run starts with the start of the loading animation and ends with its end, with no loading signal between |
| Worker.RunProgress | main.py:31-61 | progress reports never go down and stay within 0 to 100 |
| Worker.RunSuccess | main.py:52-55 | a run emits one success result iff nothing escaped and the read after the builder sees the flag set, and emits 100 % iff it emits that result |
| Worker.RunFailure | main.py:57-59 | an escaped exception gives exactly one general failure with its text, then the error status and the end of the animation, and no archive; otherwise there is no general failure |
| Worker.BuilderRaisesFault | main.py:47-50 | a builder lets escape only the text of the step that fails |
| Worker.StoppedAtOnce | main.py:31-61 | a stop before the first flag read gives only the animation signals and the "creating" status, and no archive |
| Worker.UnknownFormat | main.py:47-55 | another format writes nothing, yet reports success whenever the first read sees the flag set |
| Worker.CbzJobWithoutStop | main.py:31-107 | without a stop or an I/O error, a CBZ job reports every image, zips every saved page in sorted order and succeeds |
| Worker.EpubJobWithoutStop | main.py:31-61 | without a stop or an I/O error, an EPUB job reports every image, writes the whole book and succeeds |
| Worker.SuccessNamesArchive | main.py:36-54 | the success result names the base name of the output path, where a written archive lies |
| App.KeepAllowedCounts | main.py:502 | the filter keeps each letter, digit, space, '-' and '_' as often as the input has it, and drops every other character |
| App.KeepAllowedKept | main.py:502 | only kept characters pass the filter |
| App.KeepAllowedConcat | main.py:502 | the filter works character by character, so it keeps the order of what it keeps |
| App.StripSlice | main.py:492 | `strip()` returns the middle slice between the longest whitespace prefix and suffix |
| App.SanitizeIsClean | main.py:502 | the cleaned name holds only kept characters and no whitespace at either end |
| App.SanitizeFixedPoints | main.py:502 | cleaning leaves a name alone iff it is already clean |
| App.SanitizeIdempotent | main.py:502 | cleaning twice gives what cleaning once gives |
| App.SanitizeIgnoresOuterSpace | main.py:492-502 | the first `strip()` makes no difference to the cleaned name |
| App.StartChecks | main.py:487-508 | a job starts iff there are images, a non-blank name and an output folder; each failing check gives its own warning, in order; a started job gets the list, folder, separate-folder option and format as given and the cleaned name |
| App.EmptyNameLaunches | main.py:492-502 | a non-blank name with no kept character still starts a job, with an empty name |
| App.JobOf | main.py:505-508 | the worker's inputs are the list's paths in list order, with the cleaned name, folder, option and format of the launch |
| App.LaunchNamesArchive | main.py:28-43 | a started job's archive has as base name the cleaned name, a dot and the lower-cased format, which is the name the success message reports, and the worker writes its archive there |
| App.SwapPermutes | main.py:462-463 | a swap of two entries adds or loses none |
| App.MoveUp | main.py:458-466 | the current entry changes places with the one above and the selection follows it; at the top or with no selection nothing changes |
| App.MoveDown | main.py:468-476 | the current entry changes places with the one below and the selection follows it; at the bottom or with no selection nothing changes |
| App.MoveUpPermutes | main.py:458-466 | moving up keeps the list a permutation of itself and every other entry in place |
| App.MoveDownPermutes | main.py:468-476 | moving down keeps the list a permutation of itself and every other entry in place |
| App.MoveUpThenDown | main.py:458-476 | moving an entry up and then down restores the list and the selection |
| App.MoveDownThenUp | main.py:458-476 | moving an entry down and then up restores the list and the selection |
| App.FileList | main.py:525-528 | one label per entry, in list order; each reads back as its entry's 1-based number and its path's base name; no two labels are equal, even when files share a base name |
| App.LabelRoundTrip | main.py:528 | a label reads back as the entry's 1-based number and its path's base name |
| App.LabelIsNotBasename | main.py:451-453 | a label is never the base name of its own path, so `remove_selected` never removes the selected entry's own path |

## Left out

- Pixel data, JPEG encoding and quality: an image is its mode and size, and a saved page is its normalised raster. Decoding or saving can fail for reasons only the imaging library knows, so each input's outcome is a parameter.
- Zip bytes and compression: an archive is its list of entries (name and method) plus the working-directory snapshot the entries are read from.
- File system effects: the fixed names of the working directories, `os.makedirs`, and the cleanup in `cleanup_temp_dir` (it runs on every exit path and swallows its own errors, so it changes no event).
- Zip.Fault: an I/O error is modelled at the start of its step. A failure part-way through a write, which leaves a partial archive behind, is not modelled.
- Threads, Qt signals and slots, widgets, dialogs and the loading animation: signals are events in emission order, and `stop()` is the `Stop` value the worker's reads observe. The flag is not the only state the threads share; see the `App.JobOf` line.
- App.JobOf: the job is a snapshot of the input list at launch. The worker keeps the window's own list object (lines 24 and 506), and while it runs only the convert button is disabled (lines 516-517). So `add_pngs` (line 444), `remove_selected` (line 454) and `move_up`/`move_down` (lines 462-463, 472-473) can change the list in place while the image loops iterate it (lines 71 and 137), with the total fixed at the start (lines 70 and 133). The model does not cover such edits: a move during a run can make the loop visit one image twice and skip another, against `Pages.EachImageOnce`, and an addition can push progress past the span, against `Pages.ExpectedProgress` and `Worker.RunProgress`. `select_pngs` rebinds the window's list to a new one, so it does not reach a running job.
- `remove_selected`, `select_pngs`, `add_pngs`, `select_output_folder` and the window's layout are not modelled, because they are widget plumbing. `App.LabelIsNotBasename` records why `remove_selected` never removes the selected entry's own path: it compares the label with base names, which never equal that entry's label. It does remove another path whose base name happens to equal the label, such as `/x/01. b.png` when the first entry is `/y/b.png`.
- `os.walk` order is a parameter (`Worker.Env.walk`). The completeness lemmas assume only that it visits each file of the tree once.
- Documents in the working directory are symbolic (`Zip.Content`); `Epub.Render` gives their text.
- Progress.ImagePercent: the source computes the share of images done times the span in floating point and truncates it. The model uses the exact rounded-down quotient, so a float product that rounds just below an integer is not modelled.
- Text.Lower: `str.lower` and `str.upper` are modelled on ASCII letters only. The format comes from a fixed list of ASCII names.
- App.KeepAllowed: `str.isalnum` is a parameter, because its Unicode tables are outside the model. Python's `str.isspace` is modelled by its fixed set of whitespace characters.
- Image.NormalizedPageIsOpaque: only RGBA, LA and P are flattened, as in the source. Other modes with alpha, such as PA, La or RGBa, pass through unchanged. The imaging library's JPEG writer rejects them, and the model can express that only as a `Failed` outcome of the input.
- Zip.PageFilesOnly, Cbz.CbzArchive, Epub.EntriesComplete: the working directory is assumed empty when a job starts. Its names are fixed (lines 65 and 111) and the cleanup swallows its own errors (lines 285-291), so files left by an earlier job whose cleanup failed would be listed (line 101) or walked (line 185) into the archive. The model does not cover that case.
- Paths are POSIX paths: `Text.Basename` and `Text.JoinPath` split and join on '/' as `posixpath` does. The Windows separator `\` is not modelled.
- Line breaks are '\n'. The source writes its documents in text mode (lines 120, 130, 226, 252, 279), which gives "\r\n" on Windows; the model's readers would reject such lines.
- Dafny's integers are unbounded. The source's counters are Python integers, so nothing wraps.

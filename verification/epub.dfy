/**
  `create_epub` and its helpers (main.py lines 109-280). The job writes the
  book's skeleton (media type and container document), runs the image loop
  with progress up to 60, writes content.opf, toc.ncx and one markup page per
  saved image, then zips the working directory: the media type first and
  stored, every other walked file deflated.
*/
module Epub {
  import opened Options
  import opened Text
  import opened Events
  import opened Cancel
  import opened Naming
  import opened Pages
  import opened Zip
  import opened Markup

  // Paths of the working directory, relative to it, as the archive names them.
  const MimetypePath := "mimetype"
  const ContainerPath := "META-INF/container.xml"
  const NcxPath := "OEBPS/toc.ncx"
  const ImagesPath := "OEBPS/images/"
  const PagesPath := "OEBPS/pages/"

  /** Where the markup of page `k` is written. */
  function PagePath(k: nat): string {
    PagesPath + XhtmlName(k)
  }

  /** Different pages are written to different paths. */
  lemma PagePathsDiffer(i: nat, j: nat)
    requires i != j
    ensures PagePath(i) != PagePath(j)
  {
    if PagePath(i) == PagePath(j) {
      assert PagePath(i)[|PagesPath|..] == XhtmlName(i);
      assert PagePath(j)[|PagesPath|..] == XhtmlName(j);
      XhtmlNameInjective(i, j);
    }
  }

  /**
    The loop of `create_epub_pages` (lines 257-280) from read number `polls`
    on, over `remaining` pages: it writes a page each time a read sees the flag
    set, and returns at the first read that sees it cleared. The result is the
    number of pages written and the next read number.
  */
  function MarkupLoop(remaining: nat, stop: Stop, polls: nat): (r: (nat, nat))
    ensures r.0 == Allowed(stop, polls, remaining)
    ensures r.1 == polls + (if r.0 < remaining then r.0 + 1 else r.0)
    decreases remaining
  {
    if remaining == 0 then (0, polls)
    else if !Running(stop, polls) then (0, polls + 1)
    else
      var rest := MarkupLoop(remaining - 1, stop, polls + 1);
      (rest.0 + 1, rest.1)
  }

  /** The files `path(1)`, `path(2)`, ... holding `docs[0]`, `docs[1]`, ...: a loop writing one numbered file per document. */
  function Numbered(path: nat -> string, docs: seq<Content>): map<string, Content>
  {
    if docs == [] then map[]
    else Numbered(path, docs[..|docs| - 1])[path(|docs|) := docs[|docs| - 1]]
  }

  /** With distinct paths, file `k` holds document `k` and nothing else is written. */
  lemma {:induction false} NumberedContents(path: nat -> string, docs: seq<Content>)
    requires forall i, j :: path(i) == path(j) ==> i == j
    ensures forall k :: 1 <= k <= |docs| ==> path(k) in Numbered(path, docs) && Numbered(path, docs)[path(k)] == docs[k - 1]
    ensures forall k :: |docs| < k ==> path(k) !in Numbered(path, docs)
    ensures forall n :: n in Numbered(path, docs) ==> exists k :: 1 <= k <= |docs| && n == path(k)
  {
    if docs != [] {
      var init := docs[..|docs| - 1];
      NumberedContents(path, init);
      assert Numbered(path, docs) == Numbered(path, init)[path(|docs|) := docs[|docs| - 1]];
    }
  }

  /** The markup documents of the pages showing `files`, page `k` showing `files[k - 1]`. */
  function PageDocs(files: seq<string>): (docs: seq<Content>)
    ensures |docs| == |files| && forall k :: 0 <= k < |files| ==> docs[k] == Document(PageDoc(k + 1, files[k]))
  {
    if files == [] then [] else PageDocs(files[..|files| - 1]) + [Document(PageDoc(|files|, files[|files| - 1]))]
  }

  /** The markup files of the first `w` pages (lines 278-280). */
  function MarkupFiles(files: seq<string>, w: nat): map<string, Content>
    requires w <= |files|
  {
    Numbered(PagePath, PageDocs(files[..w]))
  }

  /** Pages 1..`w` are written, each showing its own image file, and nothing else. */
  lemma MarkupFilesContents(files: seq<string>, w: nat)
    requires w <= |files|
    ensures forall k :: 1 <= k <= w ==>
      PagePath(k) in MarkupFiles(files, w) && MarkupFiles(files, w)[PagePath(k)] == Document(PageDoc(k, files[k - 1]))
    ensures forall k :: w < k ==> PagePath(k) !in MarkupFiles(files, w)
    ensures forall n :: n in MarkupFiles(files, w) ==> exists k :: 1 <= k <= w && n == PagePath(k)
  {
    forall i, j | PagePath(i) == PagePath(j) ensures i == j {
      if i != j {
        PagePathsDiffer(i, j);
      }
    }
    NumberedContents(PagePath, PageDocs(files[..w]));
  }

  /** The page number of a markup file. */
  lemma MarkupPage(files: seq<string>, w: nat, n: string) returns (k: nat)
    requires w <= |files| && n in MarkupFiles(files, w)
    ensures 1 <= k <= w && n == PagePath(k)
  {
    MarkupFilesContents(files, w);
    k :| 1 <= k <= w && n == PagePath(k);
  }

  /** The text of a generated document. */
  function Render(doc: Doc): string {
    match doc
    case MimetypeDoc => MimetypeText
    case ContainerDoc => ContainerXml()
    case PackageDoc(title, files) => ContentOpf(title, files)
    case NcxDoc(title) => TocNcx(title)
    case PageDoc(number, imageFile) => PageMarkup(number, imageFile)
  }

  /** The files written before the image loop (lines 116-131). */
  function Skeleton(): map<string, Content> {
    map[MimetypePath := Document(MimetypeDoc), ContainerPath := Document(ContainerDoc)]
  }

  /** content.opf and toc.ncx (lines 196-253). */
  function Documents(title: string, files: seq<string>): map<string, Content> {
    map[OpfPath := Document(PackageDoc(title, files)), NcxPath := Document(NcxDoc(title))]
  }

  /** The working directory built from its parts: skeleton, saved images, the two documents and the first `w` pages' markup. */
  function Book(title: string, images: map<string, Content>, files: seq<string>, w: nat): map<string, Content>
    requires w <= |files|
  {
    Skeleton() + images + Documents(title, files) + MarkupFiles(files, w)
  }

  /** The working directory when the zip is opened, for the saved `pages` of which the first `w` got their markup. */
  function BookTree(title: string, pages: seq<Page>, w: nat): map<string, Content>
    requires w <= |pages|
  {
    Book(title, PageFiles(ImagesPath, pages), PageNames(pages), w)
  }

  /**
    The entries the `os.walk` loop writes (lines 186-192), given the relative
    paths of the walked files in walk order: each deflated, skipping every file
    named `mimetype`.
  */
  function WalkEntries(walk: seq<string>): (r: seq<Entry>)
    ensures forall k :: 0 <= k < |r| ==> r[k].compression == Deflated && Basename(r[k].name) != MimetypePath
  {
    if walk == [] then []
    else if Basename(walk[0]) == MimetypePath then WalkEntries(walk[1..])
    else [Entry(walk[0], Deflated)] + WalkEntries(walk[1..])
  }

  /** The archive's entries (lines 180-192): the media type first and stored, then every other walked file, deflated. */
  function BookEntries(walk: seq<string>): (r: seq<Entry>)
    ensures |r| >= 1 && r[0] == Entry(MimetypePath, Stored)
    ensures forall k :: 1 <= k < |r| ==> r[k].compression == Deflated && Basename(r[k].name) != MimetypePath
  {
    [Entry(MimetypePath, Stored)] + WalkEntries(walk)
  }

  /** The walk loop writes exactly the walked paths not named `mimetype`. */
  lemma {:induction false} WalkEntriesNames(walk: seq<string>)
    ensures forall n :: n in Names(WalkEntries(walk)) <==> n in walk && Basename(n) != MimetypePath
  {
    if walk != [] {
      var rest := WalkEntries(walk[1..]);
      WalkEntriesNames(walk[1..]);
      assert walk == [walk[0]] + walk[1..];
      if Basename(walk[0]) != MimetypePath {
        assert WalkEntries(walk) == [Entry(walk[0], Deflated)] + rest;
        NamesConcat([Entry(walk[0], Deflated)], rest);
        assert Names([Entry(walk[0], Deflated)]) == [walk[0]];
      } else {
        assert WalkEntries(walk) == rest;
      }
    }
  }

  /** If the walk visits each path once, each is written once. */
  lemma {:induction false} WalkEntriesDistinct(walk: seq<string>)
    requires Distinct(walk)
    ensures Distinct(Names(WalkEntries(walk)))
  {
    if walk != [] {
      var rest := WalkEntries(walk[1..]);
      DistinctTail(walk);
      WalkEntriesDistinct(walk[1..]);
      if Basename(walk[0]) != MimetypePath {
        WalkEntriesNames(walk[1..]);
        assert WalkEntries(walk) == [Entry(walk[0], Deflated)] + rest;
        NamesConcat([Entry(walk[0], Deflated)], rest);
        assert Names([Entry(walk[0], Deflated)]) == [walk[0]];
        DistinctCons(walk[0], Names(rest));
      } else {
        assert WalkEntries(walk) == rest;
      }
    }
  }

  /** `os.walk` visits every file of `tree` once and nothing else. */
  predicate Enumerates(walk: seq<string>, tree: map<string, Content>) {
    Distinct(walk) && (forall n :: n in walk ==> n in tree) && (forall n :: n in tree ==> n in walk)
  }

  /** The media type file at the root of the working directory is itself named `mimetype`. */
  lemma MimetypeAtRoot()
    ensures Basename(MimetypePath) == MimetypePath
  {
    assert [] + MimetypePath == MimetypePath;
    BasenameAfterSlash([], MimetypePath);
  }

  /**
    When the walk visits each file once and the only file named `mimetype` is
    the one at the root, the archive holds every file of the working directory
    exactly once.
  */
  lemma EntriesComplete(walk: seq<string>, tree: map<string, Content>)
    requires Enumerates(walk, tree) && MimetypePath in tree
    requires forall n :: n in tree && n != MimetypePath ==> Basename(n) != MimetypePath
    ensures var names := Names(BookEntries(walk));
      Distinct(names) && forall n :: n in names <==> n in tree
  {
    WalkEntriesNames(walk);
    WalkEntriesDistinct(walk);
    MimetypeAtRoot();
    var rest := Names(WalkEntries(walk));
    NamesConcat([Entry(MimetypePath, Stored)], WalkEntries(walk));
    assert Names([Entry(MimetypePath, Stored)]) == [MimetypePath];
    DistinctCons(MimetypePath, rest);
    var names := Names(BookEntries(walk));
    forall n ensures n in names <==> n in tree {
      assert n in names <==> n == MimetypePath || n in rest;
    }
  }

  /** `create_epub` (lines 109-194), with the page markup of lines 257-280. */
  function CreateEpub(sources: seq<Source>, title: string, outputPath: string, stop: Stop, fault: Fault, walk: seq<string>): (b: Build)
    ensures BuilderInvariant(b)
  {
    if Raises(fault, WorkDir) then Build([], 0, None, Some(fault.message))
    else
      var ph := ImagePhase(sources, 60, stop);
      PhaseFacts(sources, 60, 90, stop);
      WriteBook(ph, title, outputPath, stop, fault, walk)
  }

  /**
    The rest of `create_epub` once the image loop is over (lines 164-191): the
    flag check, the two documents and the pages' markup, then the zip.
  */
  function WriteBook(ph: Phase, title: string, outputPath: string, stop: Stop, fault: Fault, walk: seq<string>): (b: Build)
    requires BuilderEvents(ph.events)
    ensures BuilderInvariant(b)
  {
    if ph.cancelled then Build(ph.events, ph.polls, None, None)
    else if !Running(stop, ph.polls) then Build(ph.events, ph.polls + 1, None, None)
    else if Raises(fault, Markup) then Build(ph.events, ph.polls + 1, None, Some(fault.message))
    else
      var written := MarkupLoop(|ph.pages|, stop, ph.polls + 1);
      var events := ph.events + [EpubStatus, Progress(90)];
      AppendStatus(ph.events, EpubStatus);
      AppendProgress(ph.events + [EpubStatus], 90);
      assert events == ph.events + [EpubStatus] + [Progress(90)];
      if Raises(fault, ArchiveOpen) then Build(events, written.1, None, Some(fault.message))
      else Build(events, written.1, Some(Archive(outputPath, BookEntries(walk), BookTree(title, ph.pages, written.0))), None)
  }

  // Where each part of the book lives: the two root files, the two documents
  // of OEBPS/, images under OEBPS/images/ and pages under OEBPS/pages/. The
  // first and seventh characters tell them apart.

  /** Whether `n` is a path under OEBPS/ whose seventh character is `c`. */
  predicate UnderOebps(n: string, c: char) {
    |n| > 6 && n[0] == 'O' && n[6] == c
  }

  lemma PagePathShape(k: nat)
    ensures UnderOebps(PagePath(k), 'p')
  {
    assert PagePath(k)[..|PagesPath|] == PagesPath;
  }

  lemma ImagePathShape(name: string)
    ensures UnderOebps(ImagesPath + name, 'i')
  {
    assert (ImagesPath + name)[..|ImagesPath|] == ImagesPath;
  }

  lemma OutsideMarkup(files: seq<string>, w: nat, n: string)
    requires w <= |files| && !UnderOebps(n, 'p')
    ensures n !in MarkupFiles(files, w)
  {
    if n in MarkupFiles(files, w) {
      var k := MarkupPage(files, w, n);
      PagePathShape(k);
    }
  }

  lemma OutsideImages(pages: seq<Page>, n: string)
    requires !UnderOebps(n, 'i')
    ensures n !in PageFiles(ImagesPath, pages)
  {
    PageFilesOnly(ImagesPath, pages);
    if n in PageFiles(ImagesPath, pages) {
      var k :| 0 <= k < |pages| && n == ImagesPath + PageName(pages[k].number);
      ImagePathShape(PageName(pages[k].number));
    }
  }

  /** Whether every file of an image map lives under OEBPS/images/. */
  predicate ImagesOnly(images: map<string, Content>) {
    forall n :: n in images ==> UnderOebps(n, 'i')
  }

  lemma SavedImagesOnly(pages: seq<Page>)
    ensures ImagesOnly(PageFiles(ImagesPath, pages))
  {
    PageFilesOnly(ImagesPath, pages);
    forall n | n in PageFiles(ImagesPath, pages) ensures UnderOebps(n, 'i') {
      var k :| 0 <= k < |pages| && n == ImagesPath + PageName(pages[k].number);
      ImagePathShape(PageName(pages[k].number));
    }
  }

  /** The two root files are where the job wrote them. */
  lemma BookRoot(title: string, images: map<string, Content>, files: seq<string>, w: nat)
    requires w <= |files| && ImagesOnly(images)
    ensures var tree := Book(title, images, files, w);
      && MimetypePath in tree && tree[MimetypePath] == Document(MimetypeDoc)
      && ContainerPath in tree && tree[ContainerPath] == Document(ContainerDoc)
  {
    var a := Skeleton();
    var b := a + images;
    var c := b + Documents(title, files);
    assert MimetypePath[0] == 'm' && ContainerPath[0] == 'M';
    assert MimetypePath !in images && ContainerPath !in images;
    assert b[MimetypePath] == a[MimetypePath] && b[ContainerPath] == a[ContainerPath];
    assert MimetypePath !in Documents(title, files) && ContainerPath !in Documents(title, files);
    assert c[MimetypePath] == b[MimetypePath] && c[ContainerPath] == b[ContainerPath];
    OutsideMarkup(files, w, MimetypePath);
    OutsideMarkup(files, w, ContainerPath);
  }

  /** The package document and the table of contents are where the job wrote them. */
  lemma BookDocuments(title: string, images: map<string, Content>, files: seq<string>, w: nat)
    requires w <= |files|
    ensures var tree := Book(title, images, files, w);
      && OpfPath in tree && tree[OpfPath] == Document(PackageDoc(title, files))
      && NcxPath in tree && tree[NcxPath] == Document(NcxDoc(title))
  {
    var d := Documents(title, files);
    var c := Skeleton() + images + d;
    assert d[OpfPath] == Document(PackageDoc(title, files)) && d[NcxPath] == Document(NcxDoc(title));
    assert c[OpfPath] == d[OpfPath] && c[NcxPath] == d[NcxPath];
    assert OpfPath[6] == 'c' && NcxPath[6] == 't';
    OutsideMarkup(files, w, OpfPath);
    OutsideMarkup(files, w, NcxPath);
  }

  /** Pages 1..`w` are in the tree, each showing its own image file; later pages are missing. */
  lemma BookPages(title: string, images: map<string, Content>, files: seq<string>, w: nat)
    requires w <= |files| && ImagesOnly(images)
    ensures var tree := Book(title, images, files, w);
      && (forall k :: 1 <= k <= w ==> PagePath(k) in tree && tree[PagePath(k)] == Document(PageDoc(k, files[k - 1])))
      && (forall k :: w < k ==> PagePath(k) !in tree)
  {
    var tree := Book(title, images, files, w);
    forall k | 1 <= k <= w ensures PagePath(k) in tree && tree[PagePath(k)] == Document(PageDoc(k, files[k - 1])) {
      BookHasPage(title, images, files, w, k);
    }
    forall k | w < k ensures PagePath(k) !in tree {
      BookLacksPage(title, images, files, w, k);
    }
  }

  /** A page up to the last one written is in the tree, showing its own image file. */
  lemma BookHasPage(title: string, images: map<string, Content>, files: seq<string>, w: nat, k: nat)
    requires w <= |files| && 1 <= k <= w
    ensures var tree := Book(title, images, files, w);
      PagePath(k) in tree && tree[PagePath(k)] == Document(PageDoc(k, files[k - 1]))
  {
    MarkupFilesContents(files, w);
  }

  /** A page past the last one written is missing from the tree. */
  lemma BookLacksPage(title: string, images: map<string, Content>, files: seq<string>, w: nat, k: nat)
    requires w <= |files| && ImagesOnly(images) && w < k
    ensures PagePath(k) !in Book(title, images, files, w)
  {
    MarkupFilesContents(files, w);
    PagePathShape(k);
    assert OpfPath[6] == 'c' && NcxPath[6] == 't';
    assert MimetypePath[0] == 'm' && ContainerPath[0] == 'M';
    assert PagePath(k) !in Skeleton() + images + Documents(title, files);
  }

  /** The skeleton and the two documents are where the job wrote them. */
  lemma BookTreeFixed(title: string, pages: seq<Page>, w: nat)
    requires w <= |pages|
    ensures var tree := BookTree(title, pages, w);
      && MimetypePath in tree && tree[MimetypePath] == Document(MimetypeDoc)
      && ContainerPath in tree && tree[ContainerPath] == Document(ContainerDoc)
      && OpfPath in tree && tree[OpfPath] == Document(PackageDoc(title, PageNames(pages)))
      && NcxPath in tree && tree[NcxPath] == Document(NcxDoc(title))
  {
    SavedImagesOnly(pages);
    BookRoot(title, PageFiles(ImagesPath, pages), PageNames(pages), w);
    BookDocuments(title, PageFiles(ImagesPath, pages), PageNames(pages), w);
  }

  /** Every saved image is in the book under OEBPS/images/, with its own picture. */
  lemma BookTreeImages(title: string, pages: seq<Page>, w: nat)
    requires w <= |pages| && InPageOrder(pages)
    ensures var tree := BookTree(title, pages, w);
      forall k :: 0 <= k < |pages| ==>
        ImagesPath + PageName(pages[k].number) in tree && tree[ImagesPath + PageName(pages[k].number)] == JpegFile(pages[k].image)
  {
    var images := PageFiles(ImagesPath, pages);
    PageFilesContents(ImagesPath, pages);
    forall k | 0 <= k < |pages|
      ensures ImagesPath + PageName(pages[k].number) in BookTree(title, pages, w)
      ensures BookTree(title, pages, w)[ImagesPath + PageName(pages[k].number)] == JpegFile(pages[k].image)
    {
      ImagePathShape(PageName(pages[k].number));
      BookHasImage(title, images, PageNames(pages), w, ImagesPath + PageName(pages[k].number));
    }
  }

  /** A file the image loop saved is in the book as saved: no document or page markup replaces it. */
  lemma BookHasImage(title: string, images: map<string, Content>, files: seq<string>, w: nat, n: string)
    requires w <= |files| && n in images && UnderOebps(n, 'i')
    ensures n in Book(title, images, files, w) && Book(title, images, files, w)[n] == images[n]
  {
    OutsideMarkup(files, w, n);
    assert OpfPath[6] == 'c' && NcxPath[6] == 't';
    assert n !in Documents(title, files);
  }

  /** Pages 1..`w` are in the book under OEBPS/pages/, each showing its own image file; later pages are missing. */
  lemma BookTreePages(title: string, pages: seq<Page>, w: nat)
    requires w <= |pages|
    ensures var tree := BookTree(title, pages, w);
      && (forall k :: 1 <= k <= w ==> PagePath(k) in tree && tree[PagePath(k)] == Document(PageDoc(k, PageNames(pages)[k - 1])))
      && (forall k :: w < k ==> PagePath(k) !in tree)
  {
    SavedImagesOnly(pages);
    BookPages(title, PageFiles(ImagesPath, pages), PageNames(pages), w);
  }

  /** After the image loop: the status and 90 % follow only once the markup is written. */
  lemma WriteBookEvents(ph: Phase, title: string, path: string, stop: Stop, fault: Fault, walk: seq<string>)
    requires BuilderEvents(ph.events)
    ensures var written := !ph.cancelled && Running(stop, ph.polls) && !Raises(fault, Markup);
      WriteBook(ph, title, path, stop, fault, walk).events == ph.events + (if written then [EpubStatus, Progress(90)] else [])
  {
  }

  /** After the image loop: what is raised and what is zipped. */
  lemma WriteBookOutcome(ph: Phase, title: string, path: string, stop: Stop, fault: Fault, walk: seq<string>)
    requires BuilderEvents(ph.events)
    ensures var b := WriteBook(ph, title, path, stop, fault, walk);
      var reached := !ph.cancelled && Running(stop, ph.polls);
      && (b.raised.Some? <==> reached && (Raises(fault, Markup) || Raises(fault, ArchiveOpen)))
      && (b.raised.Some? ==> b.raised.value == fault.message)
      && (b.archive.Some? <==> reached && !Raises(fault, Markup) && !Raises(fault, ArchiveOpen))
  {
  }

  /** After the image loop: a written book has the markup of the pages the page loop let through. */
  lemma WriteBookArchive(ph: Phase, title: string, path: string, stop: Stop, fault: Fault, walk: seq<string>)
    requires BuilderEvents(ph.events)
    ensures var b := WriteBook(ph, title, path, stop, fault, walk);
      b.archive.Some? ==> b.archive.value == Archive(path, BookEntries(walk), BookTree(title, ph.pages, Allowed(stop, ph.polls + 1, |ph.pages|)))
  {
  }

  /** A written book whose job still sees the flag set at its next read has the markup of every page. */
  lemma WriteBookFinalRead(ph: Phase, title: string, path: string, stop: Stop, fault: Fault, walk: seq<string>)
    requires BuilderEvents(ph.events)
    ensures var b := WriteBook(ph, title, path, stop, fault, walk);
      b.archive.Some? && Running(stop, b.polls) ==> Allowed(stop, ph.polls + 1, |ph.pages|) == |ph.pages|
  {
    var b := WriteBook(ph, title, path, stop, fault, walk);
    if b.archive.Some? {
      var written := MarkupLoop(|ph.pages|, stop, ph.polls + 1);
      assert b.polls == written.1;
      if written.0 < |ph.pages| {
        StaysStopped(stop, ph.polls + 1 + written.0, written.1);
      }
    }
  }

  /**
    What `create_epub` emits: nothing when the working directory cannot be
    made; otherwise the image loop's events, then the status and 90 % once
    the loop completed and the markup was written.
  */
  lemma EpubEvents(sources: seq<Source>, title: string, path: string, stop: Stop, fault: Fault, walk: seq<string>)
    ensures var tail := if PhaseCompletes(sources, stop) && !Raises(fault, Markup) then [EpubStatus, Progress(90)] else [];
      CreateEpub(sources, title, path, stop, fault, walk).events
        == if Raises(fault, WorkDir) then [] else ExpectedEvents(sources, 60, Allowed(stop, 0, |sources|)) + tail
  {
    if !Raises(fault, WorkDir) {
      var ph := ImagePhase(sources, 60, stop);
      PhaseCharacterised(sources, 60, stop);
      PhaseFacts(sources, 60, 90, stop);
      PhaseEnd(sources, 60, stop);
      assert CreateEpub(sources, title, path, stop, fault, walk) == WriteBook(ph, title, path, stop, fault, walk);
      WriteBookEvents(ph, title, path, stop, fault, walk);
    }
  }

  /**
    The job raises exactly when the working directory, the markup or the
    archive cannot be written (the last two only once the image loop
    completed), and the archive exists exactly when it was reached and opened.
  */
  lemma EpubOutcome(sources: seq<Source>, title: string, path: string, stop: Stop, fault: Fault, walk: seq<string>)
    ensures var b := CreateEpub(sources, title, path, stop, fault, walk);
      var reached := !Raises(fault, WorkDir) && PhaseCompletes(sources, stop);
      && (b.raised.Some? <==> Raises(fault, WorkDir) || (reached && (Raises(fault, Markup) || Raises(fault, ArchiveOpen))))
      && (b.raised.Some? ==> b.raised.value == fault.message)
      && (b.archive.Some? <==> reached && !Raises(fault, Markup) && !Raises(fault, ArchiveOpen))
  {
    if !Raises(fault, WorkDir) {
      var ph := ImagePhase(sources, 60, stop);
      PhaseFacts(sources, 60, 90, stop);
      PhaseEnd(sources, 60, stop);
      assert CreateEpub(sources, title, path, stop, fault, walk) == WriteBook(ph, title, path, stop, fault, walk);
      WriteBookOutcome(ph, title, path, stop, fault, walk);
    }
  }

  /**
    A written EPUB holds the stored media type and then the walked files, over
    a working directory whose page markup stops where a read in the page loop
    saw the flag cleared.
  */
  lemma EpubArchive(sources: seq<Source>, title: string, path: string, stop: Stop, fault: Fault, walk: seq<string>)
    ensures var b := CreateEpub(sources, title, path, stop, fault, walk);
      var pages := ExpectedPages(sources, |sources|);
      b.archive.Some? ==>
        b.archive.value == Archive(path, BookEntries(walk), BookTree(title, pages, Allowed(stop, |sources| + 1, |pages|)))
  {
    var b := CreateEpub(sources, title, path, stop, fault, walk);
    if b.archive.Some? {
      var ph := ImagePhase(sources, 60, stop);
      PhaseFacts(sources, 60, 90, stop);
      PhaseEnd(sources, 60, stop);
      assert b == WriteBook(ph, title, path, stop, fault, walk);
      WriteBookOutcome(ph, title, path, stop, fault, walk);
      WriteBookArchive(ph, title, path, stop, fault, walk);
    }
  }

  /**
    If nothing was raised and the flag is still set at the read that follows
    `create_epub`, the image loop completed and a written book has every
    page's markup.
  */
  lemma EpubFinalRead(sources: seq<Source>, title: string, path: string, stop: Stop, fault: Fault, walk: seq<string>)
    ensures var b := CreateEpub(sources, title, path, stop, fault, walk);
      var pages := ExpectedPages(sources, |sources|);
      b.raised.None? && Running(stop, b.polls) ==>
        PhaseCompletes(sources, stop) && (b.archive.Some? ==> b.archive.value.files == BookTree(title, pages, |pages|))
  {
    var b := CreateEpub(sources, title, path, stop, fault, walk);
    if !Raises(fault, WorkDir) {
      var ph := ImagePhase(sources, 60, stop);
      PhaseFacts(sources, 60, 90, stop);
      PhaseEnd(sources, 60, stop);
      assert b == WriteBook(ph, title, path, stop, fault, walk);
      WriteBookOutcome(ph, title, path, stop, fault, walk);
      WriteBookArchive(ph, title, path, stop, fault, walk);
      WriteBookFinalRead(ph, title, path, stop, fault, walk);
      if ph.cancelled {
        assert b.polls == ph.polls;
      } else if !Running(stop, ph.polls) {
        assert b.polls == ph.polls + 1;
        StaysStopped(stop, ph.polls, ph.polls + 1);
      }
    }
  }

  /**
    A book whose page loop stopped after `w` pages: the package document lists
    the next page's markup, which the tree lacks.
  */
  lemma BookMissingPage(title: string, images: map<string, Content>, files: seq<string>, w: nat)
    requires w < |files| && ImagesOnly(images)
    ensures var tree := Book(title, images, files, w);
      && OpfPath in tree && tree[OpfPath] == Document(PackageDoc(title, files))
      && PageItem(w + 1) in ManifestItems(files)
      && Resolve(PackageDir, PageItem(w + 1).href) !in tree
  {
    BookDocuments(title, images, files, w);
    ManifestListsPage(files, w);
    PageItemNamesPagePath(w + 1);
    BookLacksPage(title, images, files, w, w + 1);
  }

  lemma ManifestListsPage(files: seq<string>, w: nat)
    requires w < |files|
    ensures PageItem(w + 1) in ManifestItems(files)
  {
    assert ManifestItems(files)[2 * w] == PageItem(w + 1);
  }

  /** The manifest's entry for page `k` names the file the page loop writes for it. */
  lemma PageItemNamesPagePath(k: nat)
    ensures Resolve(PackageDir, PageItem(k).href) == PagePath(k)
  {
    PageItemResolves(k);
  }

  /**
    A cancellation during the page loop still zips the book: the package
    document lists the next page's markup, which the archive's tree lacks.
  */
  lemma EpubStoppedDuringPages(sources: seq<Source>, title: string, path: string, stop: Stop, fault: Fault, walk: seq<string>)
    ensures var b := CreateEpub(sources, title, path, stop, fault, walk);
      var files := PageNames(ExpectedPages(sources, |sources|));
      var w := Allowed(stop, |sources| + 1, |files|);
      b.archive.Some? && w < |files| ==>
        var tree := b.archive.value.files;
        && OpfPath in tree && tree[OpfPath] == Document(PackageDoc(title, files))
        && PageItem(w + 1) in ManifestItems(files)
        && Resolve(PackageDir, PageItem(w + 1).href) !in tree
  {
    var b := CreateEpub(sources, title, path, stop, fault, walk);
    var pages := ExpectedPages(sources, |sources|);
    var w := Allowed(stop, |sources| + 1, |pages|);
    if b.archive.Some? && w < |pages| {
      EpubArchive(sources, title, path, stop, fault, walk);
      SavedImagesOnly(pages);
      BookMissingPage(title, PageFiles(ImagesPath, pages), PageNames(pages), w);
    }
  }

  /** Without a stop or a fault, the job emits every event and writes the whole book. */
  lemma EpubWithoutStop(sources: seq<Source>, title: string, path: string, walk: seq<string>)
    ensures
      var pages := ExpectedPages(sources, |sources|);
      var b := CreateEpub(sources, title, path, Never, NoFault, walk);
      && b.events == ExpectedEvents(sources, 60, |sources|) + [EpubStatus, Progress(90)]
      && b.raised == None
      && b.archive == Some(Archive(path, BookEntries(walk), BookTree(title, pages, |pages|)))
  {
    var ph := ImagePhase(sources, 60, Never);
    PhaseCharacterised(sources, 60, Never);
    PhaseFacts(sources, 60, 90, Never);
    var written := MarkupLoop(|ph.pages|, Never, ph.polls + 1);
    assert CreateEpub(sources, title, path, Never, NoFault, walk) == WriteBook(ph, title, path, Never, NoFault, walk)
      == Build(ph.events + [EpubStatus, Progress(90)], written.1,
               Some(Archive(path, BookEntries(walk), BookTree(title, ph.pages, written.0))), None);
  }

  // The media type is zipped once: no other file of the book is named
  // `mimetype`, as every other path ends in a letter other than `e`.

  lemma NotNamedMimetype(n: string)
    requires |n| > 0 && n[|n| - 1] != 'e'
    ensures Basename(n) != MimetypePath
  {
    var r := Basename(n);
    BasenameIsLastComponent(n);
    if |r| == |MimetypePath| {
      assert r[|r| - 1] == n[|n| - 1];
    }
  }

  lemma LastLetter(a: string, b: string, c: char)
    requires |b| > 0 && b[|b| - 1] == c
    ensures |a + b| > 0 && (a + b)[|a + b| - 1] == c
  {
  }

  lemma PagePathNotMimetype(k: nat)
    ensures Basename(PagePath(k)) != MimetypePath
  {
    LastLetter(PageStem(k), ".xhtml", 'l');
    LastLetter(PagesPath, XhtmlName(k), 'l');
    NotNamedMimetype(PagePath(k));
  }

  /** No root file other than the media type, and neither document, is named `mimetype`. */
  lemma FixedNotMimetype(title: string, files: seq<string>, n: string)
    requires (n in Skeleton() || n in Documents(title, files)) && n != MimetypePath
    ensures Basename(n) != MimetypePath
  {
    assert n == ContainerPath || n == OpfPath || n == NcxPath;
    NotNamedMimetype(n);
  }

  /** Only the root file is named `mimetype`, whatever files `images` adds under OEBPS/images/. */
  lemma BookNamesMimetypeOnce(title: string, images: map<string, Content>, files: seq<string>, w: nat)
    requires w <= |files|
    requires forall n :: n in images ==> Basename(n) != MimetypePath
    ensures forall n :: n in Book(title, images, files, w) && n != MimetypePath ==> Basename(n) != MimetypePath
  {
    forall n | n in Book(title, images, files, w) && n != MimetypePath
      ensures Basename(n) != MimetypePath
    {
      if n in MarkupFiles(files, w) {
        var k := MarkupPage(files, w, n);
        PagePathNotMimetype(k);
      } else if n !in images {
        FixedNotMimetype(title, files, n);
      }
    }
  }

  lemma SavedImagesNotMimetype(pages: seq<Page>)
    ensures forall n :: n in PageFiles(ImagesPath, pages) ==> Basename(n) != MimetypePath
  {
    PageFilesOnly(ImagesPath, pages);
    forall n | n in PageFiles(ImagesPath, pages) ensures Basename(n) != MimetypePath {
      var k :| 0 <= k < |pages| && n == ImagesPath + PageName(pages[k].number);
      LastLetter(PageStem(pages[k].number), ".jpg", 'g');
      LastLetter(ImagesPath, PageName(pages[k].number), 'g');
      NotNamedMimetype(n);
    }
  }

  /**
    When the walk visits each file of the book once, the archive holds every
    file of the working directory exactly once, the media type first.
  */
  lemma BookTreeZippedOnce(title: string, pages: seq<Page>, w: nat, walk: seq<string>)
    requires w <= |pages| && Enumerates(walk, BookTree(title, pages, w))
    ensures var names := Names(BookEntries(walk));
      Distinct(names) && forall n :: n in names <==> n in BookTree(title, pages, w)
  {
    SavedImagesNotMimetype(pages);
    BookNamesMimetypeOnce(title, PageFiles(ImagesPath, pages), PageNames(pages), w);
    BookTreeFixed(title, pages, w);
    EntriesComplete(walk, BookTree(title, pages, w));
  }

  /** A written EPUB whose walk visits each file once holds each file of its tree exactly once. */
  lemma EpubComplete(sources: seq<Source>, title: string, path: string, stop: Stop, fault: Fault, walk: seq<string>)
    ensures var b := CreateEpub(sources, title, path, stop, fault, walk);
      b.archive.Some? && Enumerates(walk, b.archive.value.files) ==>
        var names := Names(b.archive.value.entries);
        && names[0] == MimetypePath
        && Distinct(names)
        && forall n :: n in names <==> n in b.archive.value.files
  {
    var b := CreateEpub(sources, title, path, stop, fault, walk);
    if b.archive.Some? && Enumerates(walk, b.archive.value.files) {
      var pages := ExpectedPages(sources, |sources|);
      EpubArchive(sources, title, path, stop, fault, walk);
      BookTreeZippedOnce(title, pages, Allowed(stop, |sources| + 1, |pages|), walk);
      assert Names(BookEntries(walk))[0] == BookEntries(walk)[0].name;
    }
  }
}

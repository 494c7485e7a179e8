/**
  Archives as the zip module sees them from the worker: an ordered list of
  entries (archive name, compression method), together with the files of the
  working directory the entries were read from, keyed by archive name. The
  zip byte format itself is not modelled.
*/
module Zip {
  import opened Options
  import opened Image
  import opened Events
  import opened Text
  import opened Naming
  import opened Pages
  import Lex

  /** `zipfile.ZIP_STORED` or `zipfile.ZIP_DEFLATED`. */
  datatype Method = Stored | Deflated

  datatype Entry = Entry(name: string, compression: Method)

  /**
    The documents an e-book job generates, kept by what determines their text
    (the media type, the container document, content.opf for a title and its
    image files, toc.ncx for a title, and the markup of page `number` showing
    `imageFile`); `Epub.Render` gives their text.
  */
  datatype Doc =
    | MimetypeDoc
    | ContainerDoc
    | PackageDoc(title: string, files: seq<string>)
    | NcxDoc(title: string)
    | PageDoc(number: nat, imageFile: string)

  /** What a working-directory file holds: a JPEG of a normalised image, or a generated document. */
  datatype Content = JpegFile(image: Raster) | Document(doc: Doc)

  datatype Archive = Archive(path: string, entries: seq<Entry>, files: map<string, Content>)

  function Names(entries: seq<Entry>): (names: seq<string>)
    ensures |names| == |entries| && forall k :: 0 <= k < |entries| ==> names[k] == entries[k].name
  {
    if entries == [] then [] else Names(entries[..|entries| - 1]) + [entries[|entries| - 1].name]
  }

  lemma NamesConcat(a: seq<Entry>, b: seq<Entry>)
    ensures Names(a + b) == Names(a) + Names(b)
  {
    var l, r := Names(a + b), Names(a) + Names(b);
    forall k | 0 <= k < |l| ensures l[k] == r[k] {
      if k < |a| {
        assert (a + b)[k] == a[k];
      } else {
        assert (a + b)[k] == b[k - |a|];
      }
    }
  }

  /** No name occurs twice. */
  predicate Distinct(names: seq<string>) {
    forall i, j :: 0 <= i < j < |names| ==> names[i] != names[j]
  }

  /** Putting a new name in front keeps the names distinct. */
  lemma DistinctCons(x: string, s: seq<string>)
    requires x !in s && Distinct(s)
    ensures Distinct([x] + s)
  {
    var t := [x] + s;
    forall i, j | 0 <= i < j < |t| ensures t[i] != t[j] {
      assert t[j] == s[j - 1];
      if i > 0 {
        assert t[i] == s[i - 1];
      }
    }
  }

  /** The tail of a distinct list is distinct and misses its head. */
  lemma DistinctTail(s: seq<string>)
    requires |s| > 0 && Distinct(s)
    ensures Distinct(s[1..]) && s[0] !in s[1..]
  {
    var t := s[1..];
    forall i, j | 0 <= i < j < |t| ensures t[i] != t[j] {
      assert t[i] == s[i + 1] && t[j] == s[j + 1];
    }
    forall k | 0 <= k < |t| ensures t[k] != s[0] {
      assert t[k] == s[k + 1];
    }
  }

  /** `write(name)` for each name in turn on an archive opened with ZIP_DEFLATED. */
  function DeflatedEntries(names: seq<string>): (r: seq<Entry>)
    ensures |r| == |names| && forall k :: 0 <= k < |names| ==> r[k] == Entry(names[k], Deflated)
  {
    if names == [] then [] else DeflatedEntries(names[..|names| - 1]) + [Entry(names[|names| - 1], Deflated)]
  }

  lemma NamesOfDeflated(names: seq<string>)
    ensures Names(DeflatedEntries(names)) == names
  {
  }

  /** The I/O steps of a job that can raise and abort it. */
  datatype IoStep =
    | OutputDir    // os.makedirs of the output sub-folder (line 40)
    | WorkDir      // the working directory and, for an e-book, its skeleton files (lines 66, 112-131)
    | Markup       // writing content.opf, toc.ncx and the pages' markup (lines 168-174)
    | ArchiveOpen  // opening the output zip (lines 100, 180)

  /** Which step, if any, raises the first time the job reaches it, and the exception's text. */
  datatype Fault = NoFault | FailAt(step: IoStep, message: string)

  predicate Raises(fault: Fault, step: IoStep) {
    fault.FailAt? && fault.step == step
  }

  /**
    What an archive builder leaves behind: the events it emitted, how many
    times it read the cancellation flag, the archive it wrote (if it opened
    one and finished), and the message of an exception it let escape.
  */
  datatype Build = Build(events: seq<Event>, polls: nat, archive: Option<Archive>, raised: Option<string>)

  /** What every builder's events guarantee the worker: no loading signals and no success result, progress rising within 0..90. */
  predicate BuilderEvents(ev: seq<Event>) {
    && NoLoadingSignal(ev)
    && Successes(ev) == 0
    && ProgressNonDecreasing(ev)
    && ProgressWithin(ev, 0, 90)
  }

  /** What every builder guarantees the worker: its events as above, and no archive when it raised. */
  predicate BuilderInvariant(b: Build) {
    BuilderEvents(b.events) && (b.raised.Some? ==> b.archive.None?)
  }

  /** Appending a status message keeps a builder's event guarantees. */
  lemma AppendStatus(ev: seq<Event>, s: Event)
    requires s.Status? && BuilderEvents(ev)
    ensures BuilderEvents(ev + [s])
  {
    assert (ev + [s])[..|ev|] == ev;
  }

  /** So does appending a progress report no lower than any before it, up to 90. */
  lemma AppendProgress(ev: seq<Event>, p: int)
    requires BuilderEvents(ev) && ProgressWithin(ev, 0, p) && 0 <= p <= 90
    ensures BuilderEvents(ev + [Progress(p)])
  {
    var e := [Progress(p)];
    CountsOfConcat(ev, e);
    assert Successes(e) == 0 by {
      assert e[..0] == [];
    }
    ProgressConcat(ev, e, 0, p, 90);
    forall i | 0 <= i < |ev + e| ensures !(ev + e)[i].StartLoading? && !(ev + e)[i].StopLoading? {
      if i < |ev| {
        assert (ev + e)[i] == ev[i];
      }
    }
  }

  /**
    The files the image loop leaves in directory `dir` of the working
    directory: each saved page under its file name, a later write replacing
    an earlier one.
  */
  function PageFiles(dir: string, pages: seq<Page>): map<string, Content>
  {
    if pages == [] then map[]
    else
      var last := pages[|pages| - 1];
      PageFiles(dir, pages[..|pages| - 1])[dir + PageName(last.number) := JpegFile(last.image)]
  }

  /** The directory holds every saved page under its own name, with its own image. */
  lemma {:induction false} PageFilesContents(dir: string, pages: seq<Page>)
    requires InPageOrder(pages)
    ensures forall k :: 0 <= k < |pages| ==>
      dir + PageName(pages[k].number) in PageFiles(dir, pages)
      && PageFiles(dir, pages)[dir + PageName(pages[k].number)] == JpegFile(pages[k].image)
  {
    if pages != [] {
      var init := pages[..|pages| - 1];
      var last := pages[|pages| - 1];
      PageFilesContents(dir, init);
      var key := dir + PageName(last.number);
      assert PageFiles(dir, pages) == PageFiles(dir, init)[key := JpegFile(last.image)];
      forall k | 0 <= k < |pages|
        ensures dir + PageName(pages[k].number) in PageFiles(dir, pages)
          && PageFiles(dir, pages)[dir + PageName(pages[k].number)] == JpegFile(pages[k].image)
      {
        if k < |init| {
          assert pages[k] == init[k];
          PrefixedNamesDiffer(dir, init[k].number, last.number);
        }
      }
    }
  }

  lemma PrefixedNamesDiffer(dir: string, i: nat, j: nat)
    requires i != j
    ensures dir + PageName(i) != dir + PageName(j)
  {
    var a, b := dir + PageName(i), dir + PageName(j);
    if a == b {
      assert a[|dir|..] == PageName(i);
      assert b[|dir|..] == PageName(j);
      PageNameInjective(i, j);
    }
  }

  /** The pages saved by this job are all the snapshot holds (the directory starts empty). */
  lemma {:induction false} PageFilesOnly(dir: string, pages: seq<Page>)
    ensures forall n :: n in PageFiles(dir, pages) ==>
      exists k :: 0 <= k < |pages| && n == dir + PageName(pages[k].number)
  {
    if pages != [] {
      var init := pages[..|pages| - 1];
      PageFilesOnly(dir, init);
      var last := pages[|pages| - 1];
      assert PageFiles(dir, pages) == PageFiles(dir, init)[dir + PageName(last.number) := JpegFile(last.image)];
      forall n | n in PageFiles(dir, pages)
        ensures exists k :: 0 <= k < |pages| && n == dir + PageName(pages[k].number)
      {
        if n != dir + PageName(last.number) {
          assert n in PageFiles(dir, init);
          var k :| 0 <= k < |init| && n == dir + PageName(init[k].number);
          assert pages[k] == init[k];
        }
      }
    }
  }
}

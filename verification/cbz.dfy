/**
  `create_cbz` (main.py lines 63-107): the image loop with progress up to 80,
  then a zip of the working directory's files in sorted name order, every
  entry deflated, checking the cancellation flag before each one.
*/
module Cbz {
  import opened Options
  import opened Events
  import opened Cancel
  import opened Naming
  import opened Pages
  import opened Zip
  import Lex

  /**
    The zip loop (lines 101-104) from read number `polls` on: one deflated entry
    per listed name until a read sees the flag cleared, then `break`.
  */
  function ZipLoop(listing: seq<string>, stop: Stop, polls: nat): (r: (seq<Entry>, nat))
    ensures |r.0| == Allowed(stop, polls, |listing|)
    ensures forall k :: 0 <= k < |r.0| ==> r.0[k] == Entry(listing[k], Deflated)
    ensures r.1 == polls + (if |r.0| < |listing| then |r.0| + 1 else |r.0|)
    decreases |listing|
  {
    if listing == [] then ([], polls)
    else if !Running(stop, polls) then ([], polls + 1)
    else
      var rest := ZipLoop(listing[1..], stop, polls + 1);
      ([Entry(listing[0], Deflated)] + rest.0, rest.1)
  }

  /** The zip loop writes a prefix of the listing: as many names as reads see the flag set. */
  lemma ZipLoopEntries(listing: seq<string>, stop: Stop, polls: nat)
    ensures ZipLoop(listing, stop, polls).0 == DeflatedEntries(listing[..Allowed(stop, polls, |listing|)])
  {
  }

  function CreateCbz(sources: seq<Source>, outputPath: string, stop: Stop, fault: Fault): (b: Build)
    ensures BuilderInvariant(b)
  {
    if Raises(fault, WorkDir) then Build([], 0, None, Some(fault.message))
    else
      var ph := ImagePhase(sources, 80, stop);
      PhaseFacts(sources, 80, 90, stop);
      if ph.cancelled then Build(ph.events, ph.polls, None, None)
      else if !Running(stop, ph.polls) then Build(ph.events, ph.polls + 1, None, None)
      else
        var events := ph.events + [CbzStatus];
        AppendStatus(ph.events, CbzStatus);
        if Raises(fault, ArchiveOpen) then Build(events, ph.polls + 1, None, Some(fault.message))
        else
          var listing := Lex.SortNames(PageNames(ph.pages));
          var zip := ZipLoop(listing, stop, ph.polls + 1);
          Build(events, zip.1, Some(Archive(outputPath, zip.0, PageFiles("", ph.pages))), None)
  }

  /**
    The events of `create_cbz`, without its loops: those of the first `m`
    images (`m` counting the flag reads that still see it set), then the
    "creating the CBZ" status only if the zip is reached.
  */
  lemma CbzEvents(sources: seq<Source>, path: string, stop: Stop, fault: Fault)
    ensures CreateCbz(sources, path, stop, fault).events
      == if Raises(fault, WorkDir) then []
         else ExpectedEvents(sources, 80, Allowed(stop, 0, |sources|)) + (if PhaseCompletes(sources, stop) then [CbzStatus] else [])
  {
    PhaseCharacterised(sources, 80, stop);
  }

  /**
    The working directory is the first step that can raise; after it, the zip
    is opened only once every image is processed and the flag is still set,
    and opening it is the only other step that can raise.
  */
  lemma CbzOutcome(sources: seq<Source>, path: string, stop: Stop, fault: Fault)
    ensures var b := CreateCbz(sources, path, stop, fault);
      var reached := !Raises(fault, WorkDir) && PhaseCompletes(sources, stop);
      && (b.raised.Some? <==> Raises(fault, WorkDir) || (reached && Raises(fault, ArchiveOpen)))
      && (b.archive.Some? <==> reached && !Raises(fault, ArchiveOpen))
  {
    PhaseCharacterised(sources, 80, stop);
  }

  /**
    A written archive holds the sorted names of the saved pages, deflated, cut
    short where a read in the zip loop sees the flag cleared, and the working
    directory is the saved pages.
  */
  lemma CbzArchive(sources: seq<Source>, path: string, stop: Stop, fault: Fault)
    ensures var b := CreateCbz(sources, path, stop, fault);
      var pages := ExpectedPages(sources, |sources|);
      var listing := Lex.SortNames(PageNames(pages));
      b.archive.Some? ==>
        b.archive.value == Archive(path, DeflatedEntries(listing[..Allowed(stop, |sources| + 1, |listing|)]), PageFiles("", pages))
  {
    var b := CreateCbz(sources, path, stop, fault);
    if b.archive.Some? {
      var ph := ImagePhase(sources, 80, stop);
      PhaseCharacterised(sources, 80, stop);
      PhaseFacts(sources, 80, 90, stop);
      var listing := Lex.SortNames(PageNames(ph.pages));
      ZipLoopEntries(listing, stop, ph.polls + 1);
      assert b.archive.value == Archive(path, ZipLoop(listing, stop, ph.polls + 1).0, PageFiles("", ph.pages));
    }
  }

  /**
    If nothing was raised and the flag is still set at the read that follows
    `create_cbz`, the zip was reached and, when written, holds every listed name.
  */
  lemma CbzFinalRead(sources: seq<Source>, path: string, stop: Stop, fault: Fault)
    ensures var b := CreateCbz(sources, path, stop, fault);
      var listing := Lex.SortNames(PageNames(ExpectedPages(sources, |sources|)));
      b.raised.None? && Running(stop, b.polls) ==>
        PhaseCompletes(sources, stop) && (b.archive.Some? ==> |b.archive.value.entries| == |listing|)
  {
    PhaseCharacterised(sources, 80, stop);
  }

  /** Without a stop request or an I/O error, the archive holds every saved page, in sorted name order, deflated. */
  lemma CbzWithoutStop(sources: seq<Source>, path: string)
    ensures
      var pages := ExpectedPages(sources, |sources|);
      var b := CreateCbz(sources, path, Never, NoFault);
      && b.events == ExpectedEvents(sources, 80, |sources|) + [CbzStatus]
      && b.raised == None
      && b.archive == Some(Archive(path, DeflatedEntries(Lex.SortNames(PageNames(pages))), PageFiles("", pages)))
  {
    var ph := ImagePhase(sources, 80, Never);
    PhaseCharacterised(sources, 80, Never);
    var listing := Lex.SortNames(PageNames(ph.pages));
    ZipLoopEntries(listing, Never, ph.polls + 1);
    assert listing[..|listing|] == listing;
    var zip := ZipLoop(listing, Never, ph.polls + 1);
    assert CreateCbz(sources, path, Never, NoFault)
      == Build(ph.events + [CbzStatus], zip.1, Some(Archive(path, zip.0, PageFiles("", ph.pages))), None);
  }

  /** Pages numbered 1..999 in page order have file names that are already in sorted order. */
  lemma PageNamesSorted(pages: seq<Page>)
    requires InPageOrder(pages)
    requires forall k :: 0 <= k < |pages| ==> 1 <= pages[k].number <= 999
    ensures Lex.StrictlySorted(PageNames(pages))
  {
    var names := PageNames(pages);
    forall i, j | 0 <= i < j < |names| ensures Lex.Less(names[i], names[j]) {
      PageNamesSortInPageOrder(pages[i].number, pages[j].number);
    }
  }

  /** With at most 999 inputs, the sorted directory listing gives the pages in input order. */
  lemma CbzPagesInInputOrder(sources: seq<Source>)
    requires |sources| <= 999
    ensures var pages := ExpectedPages(sources, |sources|);
      Lex.SortNames(PageNames(pages)) == PageNames(pages)
  {
    var pages := ExpectedPages(sources, |sources|);
    ExpectedPagesAreTheDecoded(sources, |sources|);
    PageNamesSorted(pages);
    Lex.SortNamesOfSorted(PageNames(pages));
  }

  /** When every input decodes, page k of the loop is input k's image. */
  lemma {:induction false} AllDecodedPages(sources: seq<Source>, m: nat)
    requires m <= |sources|
    requires forall i :: 0 <= i < |sources| ==> sources[i].outcome.Decoded?
    ensures |ExpectedPages(sources, m)| == m
    ensures forall k :: 0 <= k < m ==> ExpectedPages(sources, m)[k].number == k + 1
  {
    if m > 0 {
      AllDecodedPages(sources, m - 1);
    }
  }

  /** With every input decoded and at least 1000 of them, page 1000's name sorts before page 999's. */
  lemma PageNamesPast999(sources: seq<Source>)
    requires |sources| >= 1000
    requires forall i :: 0 <= i < |sources| ==> sources[i].outcome.Decoded?
    ensures var names := PageNames(ExpectedPages(sources, |sources|));
      |names| == |sources| && Lex.Less(names[999], names[998])
  {
    AllDecodedPages(sources, |sources|);
    PageOrderBreaksAt1000();
  }

  /**
    From 1000 inputs on, the sorted listing no longer follows the input order:
    `page_1000.jpg` sorts before `page_999.jpg`, so the comic's pages come out
    shuffled.
  */
  lemma CbzPagesOutOfOrderFrom1000(sources: seq<Source>, names: seq<string>)
    requires |sources| >= 1000
    requires forall i :: 0 <= i < |sources| ==> sources[i].outcome.Decoded?
    requires names == PageNames(ExpectedPages(sources, |sources|))
    ensures Lex.SortNames(names) != names
  {
    PageNamesPast999(sources);
    Lex.SortNamesReorders(names, 998);
  }
}

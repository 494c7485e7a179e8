/**
  The per-image loop both archive builders run (main.py lines 70-95 for the
  comic archive, 134-162 for the e-book): check the cancellation flag, open
  and normalise the image, save it as `page_NNN.jpg`, then emit a progress
  event; an image that fails emits one failure result instead and the loop
  goes on with the next image.
*/
module Pages {
  import opened Image
  import opened Events
  import opened Cancel
  import opened Progress
  import opened Naming

  /**
    What happens to one input when the worker opens, converts and saves it:
    it decodes to `image` and is saved, or something raises with `message`.
  */
  datatype Outcome = Decoded(image: Raster) | Failed(message: string)

  /** One entry of the input list: its path and what opening it gives. */
  datatype Source = Source(path: string, outcome: Outcome)

  /** A saved page: its 1-based number (the position of its input) and the image written to `PageName(number)`. */
  datatype Page = Page(number: nat, image: Raster)

  /** The loop's state: events so far, pages saved, flag reads made, and whether it returned on a cleared flag. */
  datatype Phase = Phase(events: seq<Event>, pages: seq<Page>, polls: nat, cancelled: bool)

  const Fresh := Phase([], [], 0, false)

  /** The one event image `i` produces once it has been attempted. */
  function ImageEvent(sources: seq<Source>, i: nat, span: nat): Event
    requires i < |sources|
  {
    match sources[i].outcome
    case Failed(message) => ImageFailure(sources[i].path, message)
    case Decoded(_) => Progress(ImagePercent(i, |sources|, span))
  }

  /** Iteration `i` of the loop. */
  function Step(sources: seq<Source>, span: nat, stop: Stop, st: Phase, i: nat): Phase
    requires i < |sources|
  {
    if st.cancelled then st
    else if !Running(stop, st.polls) then st.(polls := st.polls + 1, cancelled := true)
    else
      var st' := st.(polls := st.polls + 1, events := st.events + [ImageEvent(sources, i, span)]);
      match sources[i].outcome
      case Failed(_) => st'
      case Decoded(img) => st'.(pages := st.pages + [Page(i + 1, Normalize(img).page)])
  }

  /** The state after the first `n` iterations. */
  function Loop(sources: seq<Source>, span: nat, stop: Stop, n: nat): Phase
    requires n <= |sources|
  {
    if n == 0 then Fresh else Step(sources, span, stop, Loop(sources, span, stop, n - 1), n - 1)
  }

  /** The whole loop over the input list, with `span` the percentage its progress reaches (80 or 60). */
  function ImagePhase(sources: seq<Source>, span: nat, stop: Stop): Phase {
    Loop(sources, span, stop, |sources|)
  }

  /** Reference: the events of the first `m` images, one per image, in input order. */
  function ExpectedEvents(sources: seq<Source>, span: nat, m: nat): (r: seq<Event>)
    requires m <= |sources|
    ensures |r| == m
  {
    if m == 0 then [] else ExpectedEvents(sources, span, m - 1) + [ImageEvent(sources, m - 1, span)]
  }

  /** Every page in `r` is the normalised image of a decoded input among the first `m`. */
  predicate PagesFromDecoded(sources: seq<Source>, m: nat, r: seq<Page>)
    requires m <= |sources|
  {
    forall k :: 0 <= k < |r| ==>
      && 1 <= r[k].number <= m
      && sources[r[k].number - 1].outcome.Decoded?
      && r[k].image == Normalize(sources[r[k].number - 1].outcome.image).page
  }

  /** Pages appear in strictly increasing page-number order. */
  predicate InPageOrder(r: seq<Page>) {
    forall k, l :: 0 <= k < l < |r| ==> r[k].number < r[l].number
  }

  /** The page numbers of `r`, in order. */
  function Numbers(r: seq<Page>): (ns: seq<nat>)
    ensures |ns| == |r| && forall k :: 0 <= k < |r| ==> ns[k] == r[k].number
  {
    if r == [] then [] else Numbers(r[..|r| - 1]) + [r[|r| - 1].number]
  }

  /** Every decoded input among the first `m` has its page in `r`. */
  predicate EveryDecodedSaved(sources: seq<Source>, m: nat, r: seq<Page>)
    requires m <= |sources|
  {
    forall i :: 0 <= i < m && sources[i].outcome.Decoded? ==> i + 1 in Numbers(r)
  }

  /** Reference: the pages saved from the first `m` images — exactly the decoded ones, in input order. */
  function ExpectedPages(sources: seq<Source>, m: nat): (r: seq<Page>)
    requires m <= |sources|
  {
    if m == 0 then []
    else
      var prev := ExpectedPages(sources, m - 1);
      match sources[m - 1].outcome
      case Failed(_) => prev
      case Decoded(img) => prev + [Page(m, Normalize(img).page)]
  }

  /** The reference pages are exactly the decoded inputs' pages, each once, in input order. */
  lemma {:induction false} ExpectedPagesAreTheDecoded(sources: seq<Source>, m: nat)
    requires m <= |sources|
    ensures PagesFromDecoded(sources, m, ExpectedPages(sources, m))
    ensures InPageOrder(ExpectedPages(sources, m))
    ensures EveryDecodedSaved(sources, m, ExpectedPages(sources, m))
  {
    if m > 0 {
      ExpectedPagesAreTheDecoded(sources, m - 1);
      var prev := ExpectedPages(sources, m - 1);
      if sources[m - 1].outcome.Failed? {
        PagesSkip(sources, m, prev);
      } else {
        PagesAppend(sources, m, prev);
      }
    }
  }

  lemma PagesSkip(sources: seq<Source>, m: nat, prev: seq<Page>)
    requires 0 < m <= |sources| && sources[m - 1].outcome.Failed?
    requires PagesFromDecoded(sources, m - 1, prev) && EveryDecodedSaved(sources, m - 1, prev)
    ensures PagesFromDecoded(sources, m, prev) && EveryDecodedSaved(sources, m, prev)
  {
  }

  lemma PagesAppend(sources: seq<Source>, m: nat, prev: seq<Page>)
    requires 0 < m <= |sources| && sources[m - 1].outcome.Decoded?
    requires PagesFromDecoded(sources, m - 1, prev) && InPageOrder(prev) && EveryDecodedSaved(sources, m - 1, prev)
    ensures var r := prev + [Page(m, Normalize(sources[m - 1].outcome.image).page)];
      PagesFromDecoded(sources, m, r) && InPageOrder(r) && EveryDecodedSaved(sources, m, r)
  {
    var page := Page(m, Normalize(sources[m - 1].outcome.image).page);
    AppendFromDecoded(sources, m, prev, page);
    AppendInOrder(prev, page);
    AppendSaved(sources, m, prev, page);
  }

  lemma AppendFromDecoded(sources: seq<Source>, m: nat, prev: seq<Page>, page: Page)
    requires 0 < m <= |sources| && sources[m - 1].outcome.Decoded?
    requires page == Page(m, Normalize(sources[m - 1].outcome.image).page)
    requires PagesFromDecoded(sources, m - 1, prev)
    ensures PagesFromDecoded(sources, m, prev + [page])
  {
    var r := prev + [page];
    forall k | 0 <= k < |r|
      ensures 1 <= r[k].number <= m && sources[r[k].number - 1].outcome.Decoded?
      ensures r[k].image == Normalize(sources[r[k].number - 1].outcome.image).page
    {
      if k < |prev| {
        assert r[k] == prev[k];
      } else {
        assert r[k] == page;
      }
    }
  }

  lemma AppendInOrder(prev: seq<Page>, page: Page)
    requires InPageOrder(prev) && forall k :: 0 <= k < |prev| ==> prev[k].number < page.number
    ensures InPageOrder(prev + [page])
  {
    var r := prev + [page];
    forall k, l | 0 <= k < l < |r| ensures r[k].number < r[l].number {
      assert r[k] == prev[k];
      if l == |prev| {
        assert r[l] == page;
      } else {
        assert r[l] == prev[l];
      }
    }
  }

  lemma AppendSaved(sources: seq<Source>, m: nat, prev: seq<Page>, page: Page)
    requires 0 < m <= |sources| && page.number == m
    requires EveryDecodedSaved(sources, m - 1, prev)
    ensures EveryDecodedSaved(sources, m, prev + [page])
  {
    var r := prev + [page];
    assert Numbers(r) == Numbers(prev) + [m];
    forall i | 0 <= i < m && sources[i].outcome.Decoded? ensures i + 1 in Numbers(r) {
      if i < m - 1 {
        assert i + 1 in Numbers(prev);
      } else {
        assert Numbers(r)[|prev|] == m;
      }
    }
  }

  lemma ExpectedEventsSnoc(sources: seq<Source>, span: nat, m: nat)
    requires m < |sources|
    ensures ExpectedEvents(sources, span, m + 1) == ExpectedEvents(sources, span, m) + [ImageEvent(sources, m, span)]
  {
  }

  /** Event `i` of the reference stream is image `i`'s event. */
  lemma {:induction false} ExpectedEventAt(sources: seq<Source>, span: nat, m: nat, i: nat)
    requires i < m <= |sources|
    ensures ExpectedEvents(sources, span, m)[i] == ImageEvent(sources, i, span)
  {
    if i < m - 1 {
      ExpectedEventAt(sources, span, m - 1, i);
    }
  }

  /**
    The loop runs exactly the images that the cancellation flag lets it start,
    and each of those does what it would do without cancellation: the first
    `m` images are processed, where `m` counts the reads that still see the flag
    set, and the loop then returns if `m` falls short of the input.
  */
  lemma {:induction false} LoopCharacterised(sources: seq<Source>, span: nat, stop: Stop, n: nat)
    requires n <= |sources|
    ensures var m := Allowed(stop, 0, n);
      Loop(sources, span, stop, n)
        == Phase(ExpectedEvents(sources, span, m), ExpectedPages(sources, m), if m < n then m + 1 else m, m < n)
  {
    if n > 0 {
      var p := n - 1;
      LoopCharacterised(sources, span, stop, p);
      var m := Allowed(stop, 0, p);
      if m < p {
        LoopStaysCancelled(sources, span, stop, p);
        assert Allowed(stop, 0, n) == m;
      } else if !Running(stop, p) {
        LoopCancelsAt(sources, span, stop, p);
        assert Allowed(stop, 0, n) == p;
      } else {
        LoopRunsImage(sources, span, stop, p);
        assert Allowed(stop, 0, n) == n;
      }
    }
  }

  /** Once cancelled, an iteration changes nothing. */
  lemma LoopStaysCancelled(sources: seq<Source>, span: nat, stop: Stop, n: nat)
    requires n < |sources|
    requires var m := Allowed(stop, 0, n);
      m < n && Loop(sources, span, stop, n) == Phase(ExpectedEvents(sources, span, m), ExpectedPages(sources, m), m + 1, true)
    ensures var m := Allowed(stop, 0, n + 1);
      m < n + 1 && Loop(sources, span, stop, n + 1) == Phase(ExpectedEvents(sources, span, m), ExpectedPages(sources, m), m + 1, true)
  {
    AllowedStaysShort(stop, n);
  }

  /** An iteration whose read sees the flag cleared only counts the read and returns. */
  lemma LoopCancelsAt(sources: seq<Source>, span: nat, stop: Stop, n: nat)
    requires n < |sources| && !Running(stop, n)
    requires Allowed(stop, 0, n) == n
    requires Loop(sources, span, stop, n) == Phase(ExpectedEvents(sources, span, n), ExpectedPages(sources, n), n, false)
    ensures Allowed(stop, 0, n + 1) == n
    ensures Loop(sources, span, stop, n + 1) == Phase(ExpectedEvents(sources, span, n), ExpectedPages(sources, n), n + 1, true)
  {
    AllowedStopsAt(stop, n);
  }

  /** An iteration whose read sees the flag set processes its image. */
  lemma LoopRunsImage(sources: seq<Source>, span: nat, stop: Stop, n: nat)
    requires n < |sources| && Running(stop, n)
    requires Allowed(stop, 0, n) == n
    requires Loop(sources, span, stop, n) == Phase(ExpectedEvents(sources, span, n), ExpectedPages(sources, n), n, false)
    ensures Allowed(stop, 0, n + 1) == n + 1
    ensures Loop(sources, span, stop, n + 1) == Phase(ExpectedEvents(sources, span, n + 1), ExpectedPages(sources, n + 1), n + 1, false)
  {
    AllowedGrows(stop, n);
    StepMatches(sources, span, stop, n);
  }

  lemma AllowedStaysShort(stop: Stop, n: nat)
    requires Allowed(stop, 0, n) < n
    ensures Allowed(stop, 0, n + 1) == Allowed(stop, 0, n)
  {
  }

  lemma AllowedStopsAt(stop: Stop, n: nat)
    requires Allowed(stop, 0, n) == n && !Running(stop, n)
    ensures Allowed(stop, 0, n + 1) == n
  {
  }

  lemma AllowedGrows(stop: Stop, n: nat)
    requires Allowed(stop, 0, n) == n && Running(stop, n)
    ensures Allowed(stop, 0, n + 1) == n + 1
  {
  }

  /** An iteration that sees the flag set records the image's event, and its page when it decoded. */
  lemma StepRuns(sources: seq<Source>, span: nat, stop: Stop, st: Phase, i: nat)
    requires i < |sources| && Running(stop, st.polls) && !st.cancelled
    ensures Step(sources, span, stop, st, i)
      == Phase(st.events + [ImageEvent(sources, i, span)],
               if sources[i].outcome.Decoded? then st.pages + [Page(i + 1, Normalize(sources[i].outcome.image).page)] else st.pages,
               st.polls + 1, false)
  {
    var st' := st.(polls := st.polls + 1, events := st.events + [ImageEvent(sources, i, span)]);
    match sources[i].outcome {
      case Failed(_) =>
        assert Step(sources, span, stop, st, i) == st';
      case Decoded(img) =>
        assert Step(sources, span, stop, st, i) == st'.(pages := st.pages + [Page(i + 1, Normalize(img).page)]);
    }
  }

  /** The reference pages grow by the image's page exactly when it decoded. */
  lemma ExpectedPagesSnoc(sources: seq<Source>, i: nat)
    requires i < |sources|
    ensures ExpectedPages(sources, i + 1)
      == if sources[i].outcome.Decoded? then ExpectedPages(sources, i) + [Page(i + 1, Normalize(sources[i].outcome.image).page)]
         else ExpectedPages(sources, i)
  {
  }

  /** An iteration that sees the flag set extends the reference events and pages by one image. */
  lemma StepMatches(sources: seq<Source>, span: nat, stop: Stop, i: nat)
    requires i < |sources| && Running(stop, i)
    ensures Step(sources, span, stop, Phase(ExpectedEvents(sources, span, i), ExpectedPages(sources, i), i, false), i)
      == Phase(ExpectedEvents(sources, span, i + 1), ExpectedPages(sources, i + 1), i + 1, false)
  {
    ExpectedEventsSnoc(sources, span, i);
    ExpectedPagesSnoc(sources, i);
    StepRuns(sources, span, stop, Phase(ExpectedEvents(sources, span, i), ExpectedPages(sources, i), i, false), i);
  }

  /** The image phase of a job, described without its loop. */
  lemma PhaseCharacterised(sources: seq<Source>, span: nat, stop: Stop)
    ensures var m := Allowed(stop, 0, |sources|);
      ImagePhase(sources, span, stop)
        == Phase(ExpectedEvents(sources, span, m), ExpectedPages(sources, m),
                 if m < |sources| then m + 1 else m, m < |sources|)
  {
    LoopCharacterised(sources, span, stop, |sources|);
  }

  function FailedCount(sources: seq<Source>, m: nat): nat
    requires m <= |sources|
  {
    if m == 0 then 0 else FailedCount(sources, m - 1) + (if sources[m - 1].outcome.Failed? then 1 else 0)
  }

  /** Every failing image yields one failure result and every decoded one a saved page: no image is lost or doubled. */
  lemma {:induction false} EachImageOnce(sources: seq<Source>, span: nat, m: nat)
    requires m <= |sources|
    ensures Failures(ExpectedEvents(sources, span, m)) == FailedCount(sources, m)
    ensures |ExpectedPages(sources, m)| + FailedCount(sources, m) == m
    ensures Successes(ExpectedEvents(sources, span, m)) == 0
  {
    if m > 0 {
      EachImageOnce(sources, span, m - 1);
      var prev := ExpectedEvents(sources, span, m - 1);
      ExpectedEventsSnoc(sources, span, m - 1);
      PagesGrow(sources, m - 1);
      ImageEventCounts(sources, m - 1, span);
      CountsOfConcat(prev, [ImageEvent(sources, m - 1, span)]);
    }
  }

  /** One more image adds one page if it was decoded and none if it failed. */
  lemma PagesGrow(sources: seq<Source>, i: nat)
    requires i < |sources|
    ensures |ExpectedPages(sources, i + 1)| == |ExpectedPages(sources, i)| + (if sources[i].outcome.Failed? then 0 else 1)
    ensures FailedCount(sources, i + 1) == FailedCount(sources, i) + (if sources[i].outcome.Failed? then 1 else 0)
  {
    ExpectedPagesSnoc(sources, i);
  }

  /** An image's event is a failure result exactly when the image failed, and never a success. */
  lemma ImageEventCounts(sources: seq<Source>, i: nat, span: nat)
    requires i < |sources|
    ensures var e := [ImageEvent(sources, i, span)];
      Failures(e) == (if sources[i].outcome.Failed? then 1 else 0) && Successes(e) == 0
  {
    var e := [ImageEvent(sources, i, span)];
    assert e[..0] == [];
  }

  /** The image phase's progress never goes down and stays within 0..span. */
  lemma ExpectedProgress(sources: seq<Source>, span: nat, m: nat)
    requires m <= |sources|
    ensures ProgressNonDecreasing(ExpectedEvents(sources, span, m))
    ensures ProgressWithin(ExpectedEvents(sources, span, m), 0, span)
    ensures NoLoadingSignal(ExpectedEvents(sources, span, m))
  {
    var ev := ExpectedEvents(sources, span, m);
    forall i, j | 0 <= i < j < |ev| && ev[i].Progress? && ev[j].Progress?
      ensures ev[i].percent <= ev[j].percent
    {
      ExpectedEventAt(sources, span, m, i);
      ExpectedEventAt(sources, span, m, j);
      ImagePercentMonotone(i, j, |sources|, span);
    }
    forall i | 0 <= i < |ev| ensures !ev[i].StartLoading? && !ev[i].StopLoading?
      && (ev[i].Progress? ==> 0 <= ev[i].percent <= span)
    {
      ExpectedEventAt(sources, span, m, i);
    }
  }

  /** Without a stop request the last decoded image brings the progress to exactly `span`. */
  lemma LastImageReachesSpan(sources: seq<Source>, span: nat)
    requires |sources| > 0 && sources[|sources| - 1].outcome.Decoded?
    ensures ImageEvent(sources, |sources| - 1, span) == Progress(span)
  {
  }

  /** The file names of the saved pages, in the order they were written. */
  function PageNames(pages: seq<Page>): (names: seq<string>)
    ensures |names| == |pages| && forall k :: 0 <= k < |pages| ==> names[k] == PageName(pages[k].number)
  {
    if pages == [] then [] else PageNames(pages[..|pages| - 1]) + [PageName(pages[|pages| - 1].number)]
  }

  /** Whether a builder gets past its image loop: every image processed and the flag still set at the read that follows. */
  predicate PhaseCompletes(sources: seq<Source>, stop: Stop)
  {
    Allowed(stop, 0, |sources|) == |sources| && Running(stop, |sources|)
  }

  /** How the loop ends: all images processed unless cancelled, and completion is that plus a set flag at the next read. */
  lemma PhaseEnd(sources: seq<Source>, span: nat, stop: Stop)
    ensures var ph := ImagePhase(sources, span, stop);
      && (!ph.cancelled ==> ph.polls == |sources| && ph.pages == ExpectedPages(sources, |sources|))
      && (ph.cancelled ==> !Running(stop, ph.polls))
      && (PhaseCompletes(sources, stop) <==> !ph.cancelled && Running(stop, ph.polls))
  {
    PhaseCharacterised(sources, span, stop);
    var m := Allowed(stop, 0, |sources|);
    if m < |sources| {
      StaysStopped(stop, m, m + 1);
    }
  }

  /** The events of the image loop start no loading signal, report no success, and rise within 0..`hi`. */
  lemma PhaseFacts(sources: seq<Source>, span: nat, hi: nat, stop: Stop)
    requires span <= hi
    ensures var ev := ImagePhase(sources, span, stop).events;
      NoLoadingSignal(ev) && Successes(ev) == 0 && ProgressNonDecreasing(ev) && ProgressWithin(ev, 0, hi)
  {
    var m := Allowed(stop, 0, |sources|);
    PhaseCharacterised(sources, span, stop);
    ExpectedProgress(sources, span, m);
    EachImageOnce(sources, span, m);
  }
}

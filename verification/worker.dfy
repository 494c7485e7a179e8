/**
  `ImageConverterWorker.run` (main.py lines 31-61): the output path, the
  "creating" status, the dispatch on the lower-cased format to one of the two
  archive builders, then the final read of the cancellation flag that decides
  between the success signals and nothing, an escaped exception turning into a
  single general failure, and the loading signals around all of it.
*/
module Worker {
  import opened Options
  import opened Text
  import opened Events
  import opened Cancel
  import opened Pages
  import opened Zip
  import Lex
  import Cbz
  import Epub

  /** What the interface hands the worker (lines 22-29): the inputs in list order, the name, the folder and the two options. */
  datatype Job = Job(sources: seq<Source>, filename: string, outputFolder: string, separateFolder: bool, format: string)

  /** What the job cannot see in advance: when the flag gets cleared, which I/O step raises, and the order `os.walk` lists files in. */
  datatype Env = Env(stop: Stop, fault: Fault, walk: seq<string>)

  /** Everything a job leaves behind: its signals in emission order and the archive it wrote, if any. */
  datatype Trace = Trace(events: seq<Event>, archive: Option<Archive>)

  /** The format as the worker keeps it (line 28). */
  function Format(job: Job): string {
    Lower(job.format)
  }

  /** The name of the separate output folder, e.g. "CBZ_Converted" (line 36). */
  function FolderName(format: string): string {
    Upper(format) + "_Converted"
  }

  /** The archive's file name: the name, a dot and the format; the success result reports it (lines 41, 43, 54). */
  function FileName(job: Job): string {
    job.filename + "." + Format(job)
  }

  /** Where the archive goes (lines 36-43). */
  function OutputPath(job: Job): string {
    if job.separateFolder then JoinPath(JoinPath(job.outputFolder, FolderName(Format(job))), FileName(job))
    else JoinPath(job.outputFolder, FileName(job))
  }

  /** The output folder is made only when a separate one is asked for, and that is where it can raise (line 40). */
  predicate FolderFails(job: Job, env: Env) {
    job.separateFolder && Raises(env.fault, OutputDir)
  }

  /** The builder the format selects (lines 47-50); any other format builds nothing and reads no flag. */
  function Builder(job: Job, env: Env): (b: Build)
    ensures BuilderInvariant(b)
  {
    var format := Format(job);
    if format == "cbz" then Cbz.CreateCbz(job.sources, OutputPath(job), env.stop, env.fault)
    else if format == "epub" then Epub.CreateEpub(job.sources, job.filename, OutputPath(job), env.stop, env.fault, env.walk)
    else Build([], 0, None, None)
  }

  /** What follows the builder (lines 52-59): the general failure, or the success signals if the next read sees the flag set. */
  function Finish(b: Build, stop: Stop, name: string): seq<Event> {
    if b.raised.Some? then [GeneralFailure(b.raised.value), ErrorStatus]
    else if Running(stop, b.polls) then [Progress(100), Result(name, true), DoneStatus]
    else []
  }

  /** The signals of a run whose builder, if reached, returned `b`. */
  function Signals(job: Job, env: Env, b: Build): seq<Event> {
    [StartLoading]
      + (if FolderFails(job, env) then [GeneralFailure(env.fault.message), ErrorStatus]
         else [CreatingStatus(Format(job), job.filename)] + b.events + Finish(b, env.stop, FileName(job)))
      + [StopLoading]
  }

  /** `run` (lines 31-61). */
  function Run(job: Job, env: Env): Trace {
    var b := Builder(job, env);
    Trace(Signals(job, env, b), if FolderFails(job, env) then None else b.archive)
  }

  /** Whether the job reports success: the builder let nothing escape and the read after it sees the flag set. */
  predicate Succeeds(job: Job, env: Env) {
    !FolderFails(job, env) && Builder(job, env).raised.None? && Running(env.stop, Builder(job, env).polls)
  }

  /** Whether an exception escaped: from the output folder or from the builder. */
  predicate Fails(job: Job, env: Env) {
    FolderFails(job, env) || Builder(job, env).raised.Some?
  }

  // Counting and shape facts about the pieces.

  lemma GeneralFailureIsOne(message: string)
    ensures IsGeneralFailure(GeneralFailure(message))
  {
    assert (GeneralPrefix + message)[..|GeneralPrefix|] == GeneralPrefix;
  }

  lemma ImageFailureNotGeneral(path: string, message: string)
    ensures !IsGeneralFailure(ImageFailure(path, message))
  {
    var t := ImageFailure(path, message).text;
    assert t[7] == 'a' && GeneralPrefix[7] == 'g';
  }

  lemma FinishCounts(b: Build, stop: Stop, name: string)
    ensures var f := Finish(b, stop, name);
      && Successes(f) == (if b.raised.None? && Running(stop, b.polls) then 1 else 0)
      && GeneralFailures(f) == (if b.raised.Some? then 1 else 0)
      && NoLoadingSignal(f)
      && ProgressNonDecreasing(f) && ProgressWithin(f, 100, 100)
      && (Progress(100) in f <==> b.raised.None? && Running(stop, b.polls))
  {
    var f := Finish(b, stop, name);
    if b.raised.Some? {
      var g := GeneralFailure(b.raised.value);
      GeneralFailureIsOne(b.raised.value);
      CountsOfOne(g);
      CountsOfOne(ErrorStatus);
      CountsOfConcat([g], [ErrorStatus]);
      assert f == [g] + [ErrorStatus];
    } else if Running(stop, b.polls) {
      var r := Result(name, true);
      CountsOfOne(Progress(100));
      CountsOfOne(r);
      CountsOfOne(DoneStatus);
      CountsOfConcat([Progress(100)], [r]);
      CountsOfConcat([Progress(100)] + [r], [DoneStatus]);
      assert f == [Progress(100)] + [r] + [DoneStatus];
      assert f[0] == Progress(100);
    } else {
      assert f == [];
    }
  }

  /** No image event is a general failure, so none of the image loop's events is one. */
  lemma {:induction false} ExpectedNoGeneral(sources: seq<Source>, span: nat, m: nat)
    requires m <= |sources|
    ensures GeneralFailures(ExpectedEvents(sources, span, m)) == 0
  {
    if m > 0 {
      var ev := ExpectedEvents(sources, span, m);
      assert ev[..|ev| - 1] == ExpectedEvents(sources, span, m - 1);
      ExpectedNoGeneral(sources, span, m - 1);
      match sources[m - 1].outcome
      case Failed(message) => ImageFailureNotGeneral(sources[m - 1].path, message);
      case Decoded(_) =>
    }
  }

  lemma StatusesNoGeneral(tail: seq<Event>)
    requires tail == [] || tail == [CbzStatus] || tail == [EpubStatus, Progress(90)]
    ensures GeneralFailures(tail) == 0
  {
    if |tail| == 2 {
      assert tail[..1] == [EpubStatus] && tail[..1][..0] == [];
    } else if |tail| == 1 {
      assert tail[..0] == [];
    }
  }

  /** The builders report image failures, never a general one. */
  lemma BuilderNoGeneral(job: Job, env: Env)
    ensures GeneralFailures(Builder(job, env).events) == 0
  {
    var format := Format(job);
    var stop := env.stop;
    if format == "cbz" {
      Cbz.CbzEvents(job.sources, OutputPath(job), stop, env.fault);
      var tail: seq<Event> := if PhaseCompletes(job.sources, stop) then [CbzStatus] else [];
      ExpectedNoGeneral(job.sources, 80, Allowed(stop, 0, |job.sources|));
      StatusesNoGeneral(tail);
      CountsOfConcat(ExpectedEvents(job.sources, 80, Allowed(stop, 0, |job.sources|)), tail);
    } else if format == "epub" {
      Epub.EpubEvents(job.sources, job.filename, OutputPath(job), stop, env.fault, env.walk);
      var tail: seq<Event> := if PhaseCompletes(job.sources, stop) && !Raises(env.fault, Markup) then [EpubStatus, Progress(90)] else [];
      ExpectedNoGeneral(job.sources, 60, Allowed(stop, 0, |job.sources|));
      StatusesNoGeneral(tail);
      CountsOfConcat(ExpectedEvents(job.sources, 60, Allowed(stop, 0, |job.sources|)), tail);
    }
  }

  // What a run promises, first for whatever its builder returns.

  /** The pieces of the signals: the opening, what the builder emitted and what follows it, and the closing. */
  lemma SignalsParts(job: Job, env: Env, b: Build) returns (mid: seq<Event>)
    ensures Signals(job, env, b) == [StartLoading] + mid + [StopLoading]
    ensures FolderFails(job, env) ==> mid == [GeneralFailure(env.fault.message), ErrorStatus]
    ensures !FolderFails(job, env) ==> mid == [CreatingStatus(Format(job), job.filename)] + b.events + Finish(b, env.stop, FileName(job))
  {
    if FolderFails(job, env) {
      mid := [GeneralFailure(env.fault.message), ErrorStatus];
    } else {
      mid := [CreatingStatus(Format(job), job.filename)] + b.events + Finish(b, env.stop, FileName(job));
    }
  }

  lemma SignalsBracketed(job: Job, env: Env, b: Build)
    requires NoLoadingSignal(b.events)
    ensures var ev := Signals(job, env, b);
      && |ev| >= 2 && ev[0] == StartLoading && ev[|ev| - 1] == StopLoading
      && NoLoadingSignal(ev[1..|ev| - 1])
  {
    var ev := Signals(job, env, b);
    var mid := SignalsParts(job, env, b);
    assert ev[1..|ev| - 1] == mid;
    if !FolderFails(job, env) {
      var f := Finish(b, env.stop, FileName(job));
      FinishCounts(b, env.stop, FileName(job));
      forall i | 0 <= i < |mid| ensures !mid[i].StartLoading? && !mid[i].StopLoading? {
        if i == 0 {
        } else if i <= |b.events| {
          assert mid[i] == b.events[i - 1];
        } else {
          assert mid[i] == f[i - 1 - |b.events|];
        }
      }
    }
  }

  lemma SignalsProgress(job: Job, env: Env, b: Build)
    requires ProgressNonDecreasing(b.events) && ProgressWithin(b.events, 0, 90)
    ensures var ev := Signals(job, env, b);
      ProgressNonDecreasing(ev) && ProgressWithin(ev, 0, 100)
  {
    var head: seq<Event> := [StartLoading];
    var mid := SignalsParts(job, env, b);
    var last: seq<Event> := [StopLoading];
    assert ProgressNonDecreasing(head) && ProgressWithin(head, 0, 0);
    assert ProgressNonDecreasing(last) && ProgressWithin(last, 100, 100);
    if FolderFails(job, env) {
      assert ProgressNonDecreasing(mid) && ProgressWithin(mid, 0, 100);
    } else {
      var f := Finish(b, env.stop, FileName(job));
      var s: seq<Event> := [CreatingStatus(Format(job), job.filename)];
      FinishCounts(b, env.stop, FileName(job));
      assert ProgressNonDecreasing(s) && ProgressWithin(s, 0, 0);
      ProgressConcat(s, b.events, 0, 0, 90);
      ProgressConcat(s + b.events, f, 0, 90, 100);
    }
    ProgressConcat(head, mid, 0, 0, 100);
    ProgressConcat(head + mid, last, 0, 100, 100);
  }

  /** A one-event stream counts that event alone. */
  lemma CountsOfOne(e: Event)
    ensures Successes([e]) == (if IsSuccess(e) then 1 else 0)
    ensures GeneralFailures([e]) == (if IsGeneralFailure(e) then 1 else 0)
  {
    assert [e][..0] == [];
  }

  /** The loading signals around a stream add no result and no progress. */
  lemma Bracket(mid: seq<Event>)
    ensures var ev := [StartLoading] + mid + [StopLoading];
      && Successes(ev) == Successes(mid) && GeneralFailures(ev) == GeneralFailures(mid)
      && (Progress(100) in ev <==> Progress(100) in mid)
  {
    CountsOfOne(StartLoading);
    CountsOfOne(StopLoading);
    CountsOfConcat([StartLoading], mid);
    CountsOfConcat([StartLoading] + mid, [StopLoading]);
  }

  /** The "creating" status before the builder's events adds no result and no progress. */
  lemma Opened(s: Event, events: seq<Event>, f: seq<Event>)
    requires s.Status?
    ensures var mid := [s] + events + f;
      && Successes(mid) == Successes(events) + Successes(f)
      && GeneralFailures(mid) == GeneralFailures(events) + GeneralFailures(f)
      && (Progress(100) in mid <==> Progress(100) in events || Progress(100) in f)
  {
    CountsOfOne(s);
    CountsOfConcat([s], events);
    CountsOfConcat([s] + events, f);
  }

  /** The failure signals for an exception: one general failure, no success, no progress. */
  lemma FailureCounts(message: string)
    ensures var mid := [GeneralFailure(message), ErrorStatus];
      && Successes(mid) == 0 && GeneralFailures(mid) == 1 && Progress(100) !in mid
  {
    var g := GeneralFailure(message);
    GeneralFailureIsOne(message);
    CountsOfOne(g);
    CountsOfOne(ErrorStatus);
    CountsOfConcat([g], [ErrorStatus]);
    assert [g] + [ErrorStatus] == [g, ErrorStatus];
  }

  lemma SignalsSuccess(job: Job, env: Env, b: Build)
    requires Successes(b.events) == 0 && ProgressWithin(b.events, 0, 90)
    ensures var ev := Signals(job, env, b);
      var succeeds := !FolderFails(job, env) && b.raised.None? && Running(env.stop, b.polls);
      && Successes(ev) == (if succeeds then 1 else 0)
      && (Progress(100) in ev <==> succeeds)
  {
    var mid := SignalsParts(job, env, b);
    Bracket(mid);
    if FolderFails(job, env) {
      FailureCounts(env.fault.message);
    } else {
      FinishCounts(b, env.stop, FileName(job));
      Opened(CreatingStatus(Format(job), job.filename), b.events, Finish(b, env.stop, FileName(job)));
    }
  }

  /** A stream that closes with the failure signals ends with them. */
  lemma EndsWithFailure(pre: seq<Event>, message: string)
    ensures var ev := pre + [GeneralFailure(message), ErrorStatus] + [StopLoading];
      |ev| >= 3 && ev[|ev| - 3..] == [GeneralFailure(message), ErrorStatus, StopLoading]
  {
  }

  lemma SignalsFailure(job: Job, env: Env, b: Build)
    requires GeneralFailures(b.events) == 0
    requires b.raised.Some? ==> env.fault.FailAt? && b.raised.value == env.fault.message
    ensures var ev := Signals(job, env, b);
      var fails := FolderFails(job, env) || b.raised.Some?;
      && GeneralFailures(ev) == (if fails then 1 else 0)
      && (fails ==> env.fault.FailAt? && |ev| >= 3 && ev[|ev| - 3..] == [GeneralFailure(env.fault.message), ErrorStatus, StopLoading])
  {
    var mid := SignalsParts(job, env, b);
    Bracket(mid);
    if FolderFails(job, env) {
      FailureCounts(env.fault.message);
      EndsWithFailure([StartLoading], env.fault.message);
    } else {
      var s := CreatingStatus(Format(job), job.filename);
      FinishCounts(b, env.stop, FileName(job));
      Opened(s, b.events, Finish(b, env.stop, FileName(job)));
      if b.raised.Some? {
        EndsWithFailure([StartLoading] + ([s] + b.events), env.fault.message);
      }
    }
  }

  // The same promises for the builder the format selects.

  /** The run opens with the start of the loading animation and closes with its end, and neither occurs in between (lines 32, 61). */
  lemma RunBracketed(job: Job, env: Env)
    ensures var ev := Run(job, env).events;
      && |ev| >= 2 && ev[0] == StartLoading && ev[|ev| - 1] == StopLoading
      && NoLoadingSignal(ev[1..|ev| - 1])
  {
    SignalsBracketed(job, env, Builder(job, env));
  }

  /** Progress reports never go down and stay within 0..100. */
  lemma RunProgress(job: Job, env: Env)
    ensures var ev := Run(job, env).events;
      ProgressNonDecreasing(ev) && ProgressWithin(ev, 0, 100)
  {
    SignalsProgress(job, env, Builder(job, env));
  }

  /**
    At most one success result: there is one exactly when nothing escaped and
    the read after the builder sees the flag set, and 100 % is reported
    exactly then (lines 52-55).
  */
  lemma RunSuccess(job: Job, env: Env)
    ensures var ev := Run(job, env).events;
      && Successes(ev) == (if Succeeds(job, env) then 1 else 0)
      && (Progress(100) in ev <==> Succeeds(job, env))
  {
    SignalsSuccess(job, env, Builder(job, env));
  }

  /**
    An exception that escapes, from the output folder or the builder, gives
    exactly one general failure, with the exception's text, followed by the
    error status (lines 57-59), and no archive; otherwise there is no general
    failure.
  */
  lemma RunFailure(job: Job, env: Env)
    ensures var ev := Run(job, env).events;
      && GeneralFailures(ev) == (if Fails(job, env) then 1 else 0)
      && (Fails(job, env) ==> env.fault.FailAt? && |ev| >= 3 && ev[|ev| - 3..] == [GeneralFailure(env.fault.message), ErrorStatus, StopLoading])
      && (Fails(job, env) ==> Run(job, env).archive.None?)
  {
    BuilderNoGeneral(job, env);
    BuilderRaisesFault(job, env);
    SignalsFailure(job, env, Builder(job, env));
  }

  /** A builder lets escape only the exception of the step that fails. */
  lemma BuilderRaisesFault(job: Job, env: Env)
    ensures var b := Builder(job, env);
      b.raised.Some? ==> env.fault.FailAt? && b.raised.value == env.fault.message
  {
    var format := Format(job);
    if format == "epub" {
      Epub.EpubOutcome(job.sources, job.filename, OutputPath(job), env.stop, env.fault, env.walk);
    }
  }

  /**
    Stopping before the job reads the flag even once means no image is
    started, nothing is written and nothing is reported beyond the
    "creating" status.
  */
  lemma StoppedAtOnce(job: Job, env: Env)
    requires env.stop == AfterPolls(0) && env.fault == NoFault
    ensures Run(job, env) == Trace([StartLoading, CreatingStatus(Format(job), job.filename), StopLoading], None)
  {
    var b := Builder(job, env);
    var format := Format(job);
    var sources := job.sources;
    assert Allowed(env.stop, 0, |sources|) == 0;
    assert !PhaseCompletes(sources, env.stop);
    assert ExpectedEvents(sources, 80, 0) == [] && ExpectedEvents(sources, 60, 0) == [];
    if format == "cbz" {
      Cbz.CbzEvents(sources, OutputPath(job), env.stop, env.fault);
      Cbz.CbzOutcome(sources, OutputPath(job), env.stop, env.fault);
    } else if format == "epub" {
      Epub.EpubEvents(sources, job.filename, OutputPath(job), env.stop, env.fault, env.walk);
      Epub.EpubOutcome(sources, job.filename, OutputPath(job), env.stop, env.fault, env.walk);
    }
    assert b.events == [] && b.raised.None? && b.archive.None?;
    assert Finish(b, env.stop, FileName(job)) == [];
  }

  /**
    A format other than "cbz" and "epub" writes nothing, yet reports success
    whenever the flag is still set at the job's first read (lines 47-55).
  */
  lemma UnknownFormat(job: Job, env: Env)
    requires Format(job) != "cbz" && Format(job) != "epub" && !FolderFails(job, env)
    ensures var t := Run(job, env);
      && t.archive.None?
      && (Succeeds(job, env) <==> Running(env.stop, 0))
      && t.events == [StartLoading, CreatingStatus(Format(job), job.filename)]
           + (if Running(env.stop, 0) then [Progress(100), Result(FileName(job), true), DoneStatus] else [])
           + [StopLoading]
  {
  }

  /** When the builder returns normally and the flag is still set, the run reports success after the builder's events. */
  lemma SignalsWhenRunning(job: Job, env: Env, b: Build, images: seq<Event>, tail: seq<Event>)
    requires !FolderFails(job, env) && b.raised.None? && Running(env.stop, b.polls)
    requires b.events == images + tail
    ensures Signals(job, env, b)
      == [StartLoading, CreatingStatus(Format(job), job.filename)] + images
         + (tail + [Progress(100), Result(FileName(job), true), DoneStatus, StopLoading])
  {
    var done: seq<Event> := [Progress(100), Result(FileName(job), true), DoneStatus, StopLoading];
    assert Finish(b, env.stop, FileName(job)) + [StopLoading] == done;
    assert Signals(job, env, b) == [StartLoading, CreatingStatus(Format(job), job.filename)] + (images + tail) + done;
  }

  /** A run's trace is made of its builder's result. */
  lemma RunOf(job: Job, env: Env) returns (b: Build)
    ensures b == Builder(job, env)
    ensures Run(job, env) == Trace(Signals(job, env, b), if FolderFails(job, env) then None else b.archive)
  {
    b := Builder(job, env);
  }

  lemma BuilderIsCbz(job: Job, env: Env)
    requires Format(job) == "cbz"
    ensures Builder(job, env) == Cbz.CreateCbz(job.sources, OutputPath(job), env.stop, env.fault)
  {
  }

  lemma BuilderIsEpub(job: Job, env: Env)
    requires Format(job) == "epub"
    ensures Builder(job, env) == Epub.CreateEpub(job.sources, job.filename, OutputPath(job), env.stop, env.fault, env.walk)
  {
  }

  /** The signals of a CBZ build that saved every image and returned with the flag still set. */
  lemma CbzSignals(job: Job, env: Env, b: Build)
    requires !FolderFails(job, env) && b.raised.None? && Running(env.stop, b.polls)
    requires b.events == ExpectedEvents(job.sources, 80, |job.sources|) + [CbzStatus]
    ensures Signals(job, env, b)
      == [StartLoading, CreatingStatus(Format(job), job.filename)] + ExpectedEvents(job.sources, 80, |job.sources|)
         + [CbzStatus, Progress(100), Result(FileName(job), true), DoneStatus, StopLoading]
  {
    var done: seq<Event> := [Progress(100), Result(FileName(job), true), DoneStatus, StopLoading];
    SignalsWhenRunning(job, env, b, ExpectedEvents(job.sources, 80, |job.sources|), [CbzStatus]);
    assert [CbzStatus] + done == [CbzStatus, Progress(100), Result(FileName(job), true), DoneStatus, StopLoading];
  }

  /** The signals of an EPUB build that wrote the whole book and returned with the flag still set. */
  lemma EpubSignals(job: Job, env: Env, b: Build)
    requires !FolderFails(job, env) && b.raised.None? && Running(env.stop, b.polls)
    requires b.events == ExpectedEvents(job.sources, 60, |job.sources|) + [EpubStatus, Progress(90)]
    ensures Signals(job, env, b)
      == [StartLoading, CreatingStatus(Format(job), job.filename)] + ExpectedEvents(job.sources, 60, |job.sources|)
         + [EpubStatus, Progress(90), Progress(100), Result(FileName(job), true), DoneStatus, StopLoading]
  {
    var done: seq<Event> := [Progress(100), Result(FileName(job), true), DoneStatus, StopLoading];
    SignalsWhenRunning(job, env, b, ExpectedEvents(job.sources, 60, |job.sources|), [EpubStatus, Progress(90)]);
    assert [EpubStatus, Progress(90)] + done == [EpubStatus, Progress(90), Progress(100), Result(FileName(job), true), DoneStatus, StopLoading];
  }

  /** Without a stop request or an I/O error, a CBZ job reports every image, zips every saved page and succeeds. */
  lemma CbzJobWithoutStop(job: Job, walk: seq<string>)
    requires Format(job) == "cbz"
    ensures var t := Run(job, Env(Never, NoFault, walk));
      var pages := ExpectedPages(job.sources, |job.sources|);
      && t.events == [StartLoading, CreatingStatus(Format(job), job.filename)] + ExpectedEvents(job.sources, 80, |job.sources|)
           + [CbzStatus, Progress(100), Result(FileName(job), true), DoneStatus, StopLoading]
      && t.archive == Some(Archive(OutputPath(job), DeflatedEntries(Lex.SortNames(PageNames(pages))), PageFiles("", pages)))
  {
    var env := Env(Never, NoFault, walk);
    var b := RunOf(job, env);
    BuilderIsCbz(job, env);
    Cbz.CbzWithoutStop(job.sources, OutputPath(job));
    CbzSignals(job, env, b);
  }

  /** Without a stop request or an I/O error, an EPUB job reports every image, writes the whole book and succeeds. */
  lemma EpubJobWithoutStop(job: Job, walk: seq<string>)
    requires Format(job) == "epub"
    ensures var t := Run(job, Env(Never, NoFault, walk));
      var pages := ExpectedPages(job.sources, |job.sources|);
      && t.events == [StartLoading, CreatingStatus(Format(job), job.filename)] + ExpectedEvents(job.sources, 60, |job.sources|)
           + [EpubStatus, Progress(90), Progress(100), Result(FileName(job), true), DoneStatus, StopLoading]
      && t.archive == Some(Archive(OutputPath(job), Epub.BookEntries(walk), Epub.BookTree(job.filename, pages, |pages|)))
  {
    var env := Env(Never, NoFault, walk);
    var b := RunOf(job, env);
    BuilderIsEpub(job, env);
    Epub.EpubWithoutStop(job.sources, job.filename, OutputPath(job), walk);
    EpubSignals(job, env, b);
  }

  /** Lower-casing keeps a '/' out. */
  lemma LowerNoSlash(s: string)
    requires '/' !in s
    ensures '/' !in Lower(s)
  {
    var r := Lower(s);
    forall i | 0 <= i < |r| ensures r[i] != '/' {
      assert r[i] == LowerChar(s[i]) && s[i] != '/';
    }
  }

  /**
    A written archive lies at the output path, and the success result names
    its base name, when neither the name nor the format holds a '/'.
  */
  lemma SuccessNamesArchive(job: Job, env: Env)
    requires '/' !in job.filename && '/' !in job.format
    ensures var t := Run(job, env);
      && Basename(OutputPath(job)) == FileName(job)
      && (t.archive.Some? ==> t.archive.value.path == OutputPath(job))
  {
    var name := FileName(job);
    LowerNoSlash(job.format);
    assert name == job.filename + ("." + Format(job));
    assert '/' !in name;
    if job.separateFolder {
      BasenameOfJoin(JoinPath(job.outputFolder, FolderName(Format(job))), name);
    } else {
      BasenameOfJoin(job.outputFolder, name);
    }
    var format := Format(job);
    if !FolderFails(job, env) {
      if format == "cbz" {
        Cbz.CbzArchive(job.sources, OutputPath(job), env.stop, env.fault);
      } else if format == "epub" {
        Epub.EpubArchive(job.sources, job.filename, OutputPath(job), env.stop, env.fault, env.walk);
      }
    }
  }
}

/**
  The signals the worker emits (main.py lines 16-20), as one event stream in
  emission order, with the exact texts of the status and result messages.
*/
module Events {
  import opened Text

  datatype Event =
    | StartLoading                      // start_loading_signal
    | StopLoading                       // stop_loading_signal
    | Progress(percent: int)            // progress_signal
    | Status(text: string)              // status_signal
    | Result(text: string, success: bool)  // result_signal

  /** The failure result for one image that could not be opened, converted or saved. */
  function ImageFailure(path: string, message: string): Event {
    Result("Erreur avec " + Basename(path) + ": " + message, false)
  }

  const GeneralPrefix := "Erreur générale: "

  /** The failure result for an exception that escaped the archive builder. */
  function GeneralFailure(message: string): Event {
    Result(GeneralPrefix + message, false)
  }

  predicate IsGeneralFailure(e: Event) {
    e.Result? && !e.success && StartsWith(e.text, GeneralPrefix)
  }

  /** "Création du CBZ : name" — the status that opens every job that got past the output folder. */
  function CreatingStatus(format: string, filename: string): Event {
    Status("Création du " + Upper(format) + " : " + filename)
  }

  const CbzStatus := Status("Création du fichier CBZ...")
  const EpubStatus := Status("Création du fichier EPUB...")
  const DoneStatus := Status("Conversion terminée !")
  const ErrorStatus := Status("Erreur lors de la conversion !")

  predicate IsSuccess(e: Event) {
    e.Result? && e.success
  }

  predicate IsFailure(e: Event) {
    e.Result? && !e.success
  }

  /** Number of success results in a stream. */
  function Successes(events: seq<Event>): (n: nat)
    ensures n <= |events|
  {
    if events == [] then 0
    else Successes(events[..|events| - 1]) + (if IsSuccess(events[|events| - 1]) then 1 else 0)
  }

  /** Number of failure results in a stream. */
  function Failures(events: seq<Event>): (n: nat)
    ensures n <= |events|
  {
    if events == [] then 0
    else Failures(events[..|events| - 1]) + (if IsFailure(events[|events| - 1]) then 1 else 0)
  }

  /** Number of general-failure results in a stream. */
  function GeneralFailures(events: seq<Event>): (n: nat)
    ensures n <= |events|
  {
    if events == [] then 0
    else GeneralFailures(events[..|events| - 1]) + (if IsGeneralFailure(events[|events| - 1]) then 1 else 0)
  }

  lemma {:induction false} CountsOfConcat(a: seq<Event>, b: seq<Event>)
    ensures Successes(a + b) == Successes(a) + Successes(b)
    ensures Failures(a + b) == Failures(a) + Failures(b)
    ensures GeneralFailures(a + b) == GeneralFailures(a) + GeneralFailures(b)
    decreases |b|
  {
    if b == [] {
      assert a + b == a;
    } else {
      assert (a + b)[..|a + b| - 1] == a + b[..|b| - 1];
      CountsOfConcat(a, b[..|b| - 1]);
    }
  }

  /** Progress values never go down along the stream. */
  predicate ProgressNonDecreasing(events: seq<Event>) {
    forall i, j :: 0 <= i < j < |events| && events[i].Progress? && events[j].Progress? ==>
      events[i].percent <= events[j].percent
  }

  predicate ProgressWithin(events: seq<Event>, lo: int, hi: int) {
    forall i :: 0 <= i < |events| && events[i].Progress? ==> lo <= events[i].percent <= hi
  }

  /** Two non-decreasing runs, the first below the second, make a non-decreasing run. */
  lemma ProgressConcat(a: seq<Event>, b: seq<Event>, lo: int, mid: int, hi: int)
    requires lo <= mid <= hi
    requires ProgressNonDecreasing(a) && ProgressWithin(a, lo, mid)
    requires ProgressNonDecreasing(b) && ProgressWithin(b, mid, hi)
    ensures ProgressNonDecreasing(a + b) && ProgressWithin(a + b, lo, hi)
  {
    var c := a + b;
    forall i, j | 0 <= i < j < |c| && c[i].Progress? && c[j].Progress?
      ensures c[i].percent <= c[j].percent
    {
      if j < |a| {
        assert c[i] == a[i] && c[j] == a[j];
      } else if i >= |a| {
        assert c[i] == b[i - |a|] && c[j] == b[j - |a|];
      } else {
        assert c[i] == a[i] && c[j] == b[j - |a|];
      }
    }
    forall i | 0 <= i < |c| && c[i].Progress? ensures lo <= c[i].percent <= hi {
      if i < |a| {
        assert c[i] == a[i];
      } else {
        assert c[i] == b[i - |a|];
      }
    }
  }

  /** No loading signal anywhere in the stream. */
  predicate NoLoadingSignal(events: seq<Event>) {
    forall i :: 0 <= i < |events| ==> !events[i].StartLoading? && !events[i].StopLoading?
  }
}

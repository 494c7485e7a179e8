/**
  The parts of `ImageConverterApp` (main.py) that decide what a job gets: the
  checks and the name cleaning of `start_conversion` (lines 487-504), the
  reordering of the input list by `move_up` / `move_down` (lines 458-476), and
  the numbered labels `update_file_list` shows (lines 525-528).
*/
module App {
  import opened Options
  import opened Text
  import opened Pages
  import Worker

  // Name cleaning (line 502).

  /** The whitespace of Python's `str.isspace`, which `str.strip()` removes. */
  predicate IsSpace(c: char) {
    || c == ' '
    || ('\t' <= c <= '\r')
    || ('\U{1C}' <= c <= '\U{1F}')
    || c == '\U{85}' || c == '\U{A0}' || c == '\U{1680}'
    || ('\U{2000}' <= c <= '\U{200A}')
    || c == '\U{2028}' || c == '\U{2029}' || c == '\U{202F}' || c == '\U{205F}' || c == '\U{3000}'
  }

  /** `s.lstrip()`. */
  function StripLeft(s: string): string {
    if |s| > 0 && IsSpace(s[0]) then StripLeft(s[1..]) else s
  }

  /** `s.rstrip()`. */
  function StripRight(s: string): string {
    if |s| > 0 && IsSpace(s[|s| - 1]) then StripRight(s[..|s| - 1]) else s
  }

  /** `s.strip()`. */
  function Strip(s: string): string {
    StripRight(StripLeft(s))
  }

  /** A character the name filter keeps: a letter or digit as `str.isalnum` decides, a space, '-' or '_'. */
  predicate Kept(c: char, isAlnum: char -> bool) {
    isAlnum(c) || c == ' ' || c == '-' || c == '_'
  }

  predicate AllKept(s: string, isAlnum: char -> bool) {
    forall i :: 0 <= i < |s| ==> Kept(s[i], isAlnum)
  }

  predicate AllSpace(s: string) {
    forall i :: 0 <= i < |s| ==> IsSpace(s[i])
  }

  /** The generator expression of line 502: the kept characters, in their order. */
  function KeepAllowed(s: string, isAlnum: char -> bool): (r: string)
    ensures |r| <= |s|
  {
    if s == [] then []
    else KeepAllowed(s[..|s| - 1], isAlnum) + (if Kept(s[|s| - 1], isAlnum) then [s[|s| - 1]] else [])
  }

  /** Line 502: the kept characters, then `strip()`. */
  function Sanitize(name: string, isAlnum: char -> bool): string {
    Strip(KeepAllowed(name, isAlnum))
  }

  /** A name the cleaning leaves alone: kept characters only, no whitespace at either end. */
  predicate Clean(s: string, isAlnum: char -> bool) {
    AllKept(s, isAlnum) && (s == [] || (!IsSpace(s[0]) && !IsSpace(s[|s| - 1])))
  }

  /** One more character: the filter's result grows by it exactly when it is kept. */
  lemma KeepAllowedStep(p: string, x: char, isAlnum: char -> bool)
    ensures KeepAllowed(p + [x], isAlnum) == KeepAllowed(p, isAlnum) + (if Kept(x, isAlnum) then [x] else [])
  {
    assert (p + [x])[..|p|] == p;
  }

  /** The filter keeps every kept character as often as the input has it, and no other character. */
  lemma {:induction false} KeepAllowedCounts(s: string, isAlnum: char -> bool)
    ensures forall c :: multiset(KeepAllowed(s, isAlnum))[c] == if Kept(c, isAlnum) then multiset(s)[c] else 0
  {
    if s != [] {
      var p := s[..|s| - 1];
      var x := s[|s| - 1];
      KeepAllowedCounts(p, isAlnum);
      assert s == p + [x];
      KeepAllowedStep(p, x, isAlnum);
      var t: string := if Kept(x, isAlnum) then [x] else [];
      assert multiset(s) == multiset(p) + multiset{x};
      assert multiset(KeepAllowed(s, isAlnum)) == multiset(KeepAllowed(p, isAlnum)) + multiset(t);
    }
  }

  /** Only kept characters pass the filter. */
  lemma {:induction false} KeepAllowedKept(s: string, isAlnum: char -> bool)
    ensures AllKept(KeepAllowed(s, isAlnum), isAlnum)
  {
    if s != [] {
      var p := s[..|s| - 1];
      KeepAllowedKept(p, isAlnum);
      assert s == p + [s[|s| - 1]];
      KeepAllowedStep(p, s[|s| - 1], isAlnum);
    }
  }

  /** Whitespace passes the filter as whitespace. */
  lemma {:induction false} KeepAllowedSpaces(s: string, isAlnum: char -> bool)
    requires AllSpace(s)
    ensures AllSpace(KeepAllowed(s, isAlnum))
  {
    if s != [] {
      var p := s[..|s| - 1];
      assert AllSpace(p);
      KeepAllowedSpaces(p, isAlnum);
      assert s == p + [s[|s| - 1]];
      KeepAllowedStep(p, s[|s| - 1], isAlnum);
    }
  }

  /** The filter works character by character, so it keeps the order of what it keeps. */
  lemma {:induction false} KeepAllowedConcat(a: string, b: string, isAlnum: char -> bool)
    ensures KeepAllowed(a + b, isAlnum) == KeepAllowed(a, isAlnum) + KeepAllowed(b, isAlnum)
    decreases |b|
  {
    if b == [] {
      assert a + b == a;
    } else {
      var q := b[..|b| - 1];
      assert (a + b)[..|a + b| - 1] == a + q;
      assert (a + b)[|a + b| - 1] == b[|b| - 1];
      KeepAllowedConcat(a, q, isAlnum);
    }
  }

  /** A string of kept characters passes the filter unchanged. */
  lemma {:induction false} KeepAllowedOfKept(s: string, isAlnum: char -> bool)
    requires AllKept(s, isAlnum)
    ensures KeepAllowed(s, isAlnum) == s
  {
    if s != [] {
      assert AllKept(s[..|s| - 1], isAlnum);
      KeepAllowedOfKept(s[..|s| - 1], isAlnum);
    }
  }

  /** `lstrip()` drops the longest whitespace prefix. */
  lemma {:induction false} StripLeftSlice(s: string) returns (lo: nat)
    ensures lo <= |s| && StripLeft(s) == s[lo..] && AllSpace(s[..lo])
    ensures lo < |s| ==> !IsSpace(s[lo])
  {
    if |s| > 0 && IsSpace(s[0]) {
      var l := StripLeftSlice(s[1..]);
      lo := l + 1;
      assert s[1..][l..] == s[lo..];
      forall i | 0 <= i < lo ensures IsSpace(s[..lo][i]) {
        if i > 0 {
          assert s[..lo][i] == s[1..][..l][i - 1];
        }
      }
    } else {
      lo := 0;
    }
  }

  /** `rstrip()` drops the longest whitespace suffix. */
  lemma {:induction false} StripRightSlice(s: string) returns (hi: nat)
    ensures hi <= |s| && StripRight(s) == s[..hi] && AllSpace(s[hi..])
    ensures hi > 0 ==> !IsSpace(s[hi - 1])
  {
    if |s| > 0 && IsSpace(s[|s| - 1]) {
      var p := s[..|s| - 1];
      hi := StripRightSlice(p);
      assert p[..hi] == s[..hi];
      forall i | 0 <= i < |s| - hi ensures IsSpace(s[hi..][i]) {
        if hi + i < |p| {
          assert s[hi..][i] == p[hi..][i];
        }
      }
    } else {
      hi := |s|;
    }
  }

  lemma SliceOfSlice(s: string, lo: nat, k: nat)
    requires lo + k <= |s|
    ensures s[lo..][..k] == s[lo..lo + k] && s[lo..][k..] == s[lo + k..]
  {
  }

  /**
    `strip()` returns the slice between a whitespace prefix and a whitespace
    suffix, and the slice neither starts nor ends with whitespace.
  */
  lemma StripSlice(s: string) returns (lo: nat, hi: nat)
    ensures lo <= hi <= |s| && Strip(s) == s[lo..hi]
    ensures AllSpace(s[..lo]) && AllSpace(s[hi..])
    ensures lo < hi ==> !IsSpace(s[lo]) && !IsSpace(s[hi - 1])
  {
    lo := StripLeftSlice(s);
    var l := s[lo..];
    var k := StripRightSlice(l);
    hi := lo + k;
    SliceOfSlice(s, lo, k);
    if lo < hi {
      assert l[0] == s[lo] && l[k - 1] == s[hi - 1];
    }
  }

  /** Whitespace before a string does not survive `lstrip()`. */
  lemma {:induction false} StripLeftSpaces(x: string, w: string)
    requires AllSpace(x)
    ensures StripLeft(x + w) == StripLeft(w)
  {
    if x != [] {
      assert (x + w)[0] == x[0] && IsSpace(x[0]);
      assert (x + w)[1..] == x[1..] + w;
      assert AllSpace(x[1..]);
      StripLeftSpaces(x[1..], w);
    } else {
      assert x + w == w;
    }
  }

  /** Whitespace after a string does not survive `rstrip()`. */
  lemma {:induction false} StripRightSpaces(w: string, z: string)
    requires AllSpace(z)
    ensures StripRight(w + z) == StripRight(w)
  {
    if z != [] {
      assert (w + z)[..|w + z| - 1] == w + z[..|z| - 1];
      assert AllSpace(z[..|z| - 1]);
      StripRightSpaces(w, z[..|z| - 1]);
    } else {
      assert w + z == w;
    }
  }

  /** What follows a string that does not strip to nothing is left alone by `lstrip()`. */
  lemma {:induction false} StripLeftAppend(y: string, z: string)
    requires StripLeft(y) != []
    ensures StripLeft(y + z) == StripLeft(y) + z
  {
    if IsSpace(y[0]) {
      assert (y + z)[1..] == y[1..] + z;
      StripLeftAppend(y[1..], z);
    }
  }

  /** Whitespace around a string does not change what `strip()` makes of it. */
  lemma StripOuter(x: string, y: string, z: string)
    requires AllSpace(x) && AllSpace(z)
    ensures Strip(x + y + z) == Strip(y)
  {
    assert x + y + z == x + (y + z);
    StripLeftSpaces(x, y + z);
    if StripLeft(y) != [] {
      StripLeftAppend(y, z);
      StripRightSpaces(StripLeft(y), z);
    } else {
      var lo := StripLeftSlice(y);
      assert AllSpace(y);
      assert y == y + [];
      StripLeftSpaces(y, z);
      StripLeftSpaces(z, []);
      assert z + [] == z;
    }
  }

  /** What the cleaning returns is clean: kept characters, no whitespace at the ends, taken in order from the filtered input. */
  lemma SanitizeIsClean(name: string, isAlnum: char -> bool)
    ensures Clean(Sanitize(name, isAlnum), isAlnum)
  {
    var k := KeepAllowed(name, isAlnum);
    KeepAllowedKept(name, isAlnum);
    var lo, hi := StripSlice(k);
    var r := Sanitize(name, isAlnum);
    forall i | 0 <= i < |r| ensures Kept(r[i], isAlnum) {
      assert r[i] == k[lo + i];
    }
    if r != [] {
      assert r[0] == k[lo] && r[|r| - 1] == k[hi - 1];
    }
  }

  /** The cleaning leaves a name alone exactly when it is already clean. */
  lemma SanitizeFixedPoints(name: string, isAlnum: char -> bool)
    ensures Sanitize(name, isAlnum) == name <==> Clean(name, isAlnum)
  {
    SanitizeIsClean(name, isAlnum);
    if Clean(name, isAlnum) {
      KeepAllowedOfKept(name, isAlnum);
      assert StripLeft(name) == name;
      assert StripRight(name) == name;
    }
  }

  /** Cleaning twice gives what cleaning once gives. */
  lemma SanitizeIdempotent(name: string, isAlnum: char -> bool)
    ensures Sanitize(Sanitize(name, isAlnum), isAlnum) == Sanitize(name, isAlnum)
  {
    SanitizeIsClean(name, isAlnum);
    SanitizeFixedPoints(Sanitize(name, isAlnum), isAlnum);
  }

  /** The `strip()` of line 492 makes no difference to the cleaned name: the filter and the second strip remove the same whitespace. */
  lemma SanitizeIgnoresOuterSpace(text: string, isAlnum: char -> bool)
    ensures Sanitize(Strip(text), isAlnum) == Sanitize(text, isAlnum)
  {
    var lo, hi := StripSlice(text);
    ThreeSlices(text, lo, hi);
    SanitizeOuter(text[..lo], text[lo..hi], text[hi..], isAlnum);
  }

  lemma ThreeSlices(s: string, lo: nat, hi: nat)
    requires lo <= hi <= |s|
    ensures s == s[..lo] + s[lo..hi] + s[hi..]
  {
  }

  /** Whitespace around a name does not change what the cleaning makes of it. */
  lemma SanitizeOuter(x: string, y: string, z: string, isAlnum: char -> bool)
    requires AllSpace(x) && AllSpace(z)
    ensures Sanitize(x + y + z, isAlnum) == Sanitize(y, isAlnum)
  {
    KeepAllowedConcat(x, y, isAlnum);
    KeepAllowedConcat(x + y, z, isAlnum);
    KeepAllowedSpaces(x, isAlnum);
    KeepAllowedSpaces(z, isAlnum);
    StripOuter(KeepAllowed(x, isAlnum), KeepAllowed(y, isAlnum), KeepAllowed(z, isAlnum));
  }

  // Starting a conversion (lines 487-510).

  const NoImages := "Aucune image sélectionnée !"
  const NoName := "Veuillez entrer un nom pour le fichier !"
  const NoFolder := "Veuillez sélectionner un dossier de sortie !"

  /** What the button does: a warning box, or a worker started on these arguments. */
  datatype Start =
    | Warning(message: string)
    | Launch(paths: seq<string>, filename: string, outputFolder: string, separateFolder: bool, format: string)

  /** `start_conversion`: the three checks in their order, then the cleaned name. */
  function StartConversion(paths: seq<string>, text: string, folder: string, separate: bool, format: string,
                           isAlnum: char -> bool): Start {
    if paths == [] then Warning(NoImages)
    else if Strip(text) == [] then Warning(NoName)
    else if folder == [] then Warning(NoFolder)
    else Launch(paths, Sanitize(Strip(text), isAlnum), folder, separate, format)
  }

  /**
    A conversion starts exactly when there are images, a name that is not all
    whitespace and a folder; the first missing one names the warning; a started
    job gets the list as it stands and a clean name.
  */
  lemma StartChecks(paths: seq<string>, text: string, folder: string, separate: bool, format: string,
                    isAlnum: char -> bool)
    ensures var s := StartConversion(paths, text, folder, separate, format, isAlnum);
      && (s.Launch? <==> paths != [] && Strip(text) != [] && folder != [])
      && (paths == [] ==> s == Warning(NoImages))
      && (paths != [] && Strip(text) == [] ==> s == Warning(NoName))
      && (paths != [] && Strip(text) != [] && folder == [] ==> s == Warning(NoFolder))
      && (s.Launch? ==> s.paths == paths && s.outputFolder == folder && s.separateFolder == separate
                        && s.format == format
                        && s.filename == Sanitize(text, isAlnum) && Clean(s.filename, isAlnum))
  {
    SanitizeIgnoresOuterSpace(text, isAlnum);
    SanitizeIsClean(text, isAlnum);
  }

  /**
    A name made only of characters the filter drops passes the emptiness check
    of line 493 and still launches a job, with an empty name.
  */
  lemma EmptyNameLaunches(paths: seq<string>, text: string, folder: string, separate: bool, format: string,
                          isAlnum: char -> bool)
    requires paths != [] && folder != [] && Strip(text) != []
    requires forall i :: 0 <= i < |text| ==> !Kept(text[i], isAlnum)
    ensures StartConversion(paths, text, folder, separate, format, isAlnum) == Launch(paths, "", folder, separate, format)
  {
    SanitizeIgnoresOuterSpace(text, isAlnum);
    KeepAllowedCounts(text, isAlnum);
  }

  /** The job a launch gives the worker, with what opening each path gives; the list is taken as it stands at launch. */
  function JobOf(s: Start, open: string -> Outcome): (job: Worker.Job)
    requires s.Launch?
    ensures |job.sources| == |s.paths|
    ensures forall i :: 0 <= i < |s.paths| ==> job.sources[i] == Source(s.paths[i], open(s.paths[i]))
    ensures job.filename == s.filename && job.outputFolder == s.outputFolder
    ensures job.separateFolder == s.separateFolder && job.format == s.format
  {
    Worker.Job(seq(|s.paths|, i requires 0 <= i < |s.paths| => Source(s.paths[i], open(s.paths[i]))),
               s.filename, s.outputFolder, s.separateFolder, s.format)
  }

  /** A cleaned name never holds a '/' when the alphanumeric test rejects it. */
  lemma CleanNoSlash(s: string, isAlnum: char -> bool)
    requires !isAlnum('/') && AllKept(s, isAlnum)
    ensures '/' !in s
  {
  }

  /**
    The archive a started job writes is named after what the user typed: its
    base name is the cleaned name, a dot and the lower-cased format, which is
    the name the success message reports, and the worker writes the archive at
    that path. The format comes from the combo box (line 355), so holds no '/'.
  */
  lemma LaunchNamesArchive(paths: seq<string>, text: string, folder: string, separate: bool, format: string,
                           isAlnum: char -> bool, open: string -> Outcome, env: Worker.Env)
    requires !isAlnum('/') && '/' !in format
    requires StartConversion(paths, text, folder, separate, format, isAlnum).Launch?
    ensures var job := JobOf(StartConversion(paths, text, folder, separate, format, isAlnum), open);
      && Worker.FileName(job) == Sanitize(text, isAlnum) + "." + Lower(format)
      && Basename(Worker.OutputPath(job)) == Worker.FileName(job)
      && (Worker.Run(job, env).archive.Some? ==> Worker.Run(job, env).archive.value.path == Worker.OutputPath(job))
  {
    var s := StartConversion(paths, text, folder, separate, format, isAlnum);
    StartChecks(paths, text, folder, separate, format, isAlnum);
    CleanNoSlash(s.filename, isAlnum);
    Worker.SuccessNamesArchive(JobOf(s, open), env);
  }

  // Reordering the list (lines 458-476).

  /** The input list and the file list's current row (-1 when no row is current). */
  datatype Selection = Selection(paths: seq<string>, row: int)

  /** The current row is a row of the list, or none. */
  predicate ValidRow(s: Selection) {
    -1 <= s.row < |s.paths|
  }

  function Swap(xs: seq<string>, i: nat, j: nat): (r: seq<string>)
    requires i < |xs| && j < |xs|
    ensures |r| == |xs| && r[i] == xs[j] && r[j] == xs[i]
    ensures forall k :: 0 <= k < |xs| && k != i && k != j ==> r[k] == xs[k]
  {
    xs[i := xs[j]][j := xs[i]]
  }

  /** A swap moves entries without adding or losing any. */
  lemma SwapPermutes(xs: seq<string>, i: nat, j: nat)
    requires i < |xs| && j < |xs|
    ensures multiset(Swap(xs, i, j)) == multiset(xs)
  {
    var ys := xs[i := xs[j]];
    assert multiset(ys) == multiset(xs) - multiset{xs[i]} + multiset{xs[j]};
    assert ys[j] == (if i == j then xs[j] else xs[j]);
  }

  /** `move_up`: the current entry changes places with the one above, and the selection follows it. */
  function MoveUp(s: Selection): (r: Selection)
    requires ValidRow(s)
    ensures ValidRow(r) && |r.paths| == |s.paths|
    ensures s.row > 0 ==> r.row == s.row - 1 && r.paths[r.row] == s.paths[s.row] && r.paths[s.row] == s.paths[r.row]
    ensures s.row <= 0 ==> r == s
  {
    if s.row > 0 then Selection(Swap(s.paths, s.row - 1, s.row), s.row - 1) else s
  }

  /** `move_down`: the current entry changes places with the one below, and the selection follows it. */
  function MoveDown(s: Selection): (r: Selection)
    requires ValidRow(s)
    ensures ValidRow(r) && |r.paths| == |s.paths|
    ensures 0 <= s.row < |s.paths| - 1 ==> r.row == s.row + 1 && r.paths[r.row] == s.paths[s.row] && r.paths[s.row] == s.paths[r.row]
    ensures !(0 <= s.row < |s.paths| - 1) ==> r == s
  {
    if s.row < |s.paths| - 1 && s.row >= 0 then Selection(Swap(s.paths, s.row, s.row + 1), s.row + 1) else s
  }

  /** `move_up` keeps the list a permutation of itself and leaves every entry but the two it swaps where it was. */
  lemma MoveUpPermutes(s: Selection)
    requires ValidRow(s)
    ensures multiset(MoveUp(s).paths) == multiset(s.paths)
    ensures forall k :: 0 <= k < |s.paths| && k != s.row && k != s.row - 1 ==> MoveUp(s).paths[k] == s.paths[k]
  {
    if s.row > 0 {
      SwapPermutes(s.paths, s.row - 1, s.row);
    }
  }

  /** `move_down` keeps the list a permutation of itself and leaves every entry but the two it swaps where it was. */
  lemma MoveDownPermutes(s: Selection)
    requires ValidRow(s)
    ensures multiset(MoveDown(s).paths) == multiset(s.paths)
    ensures forall k :: 0 <= k < |s.paths| && k != s.row && k != s.row + 1 ==> MoveDown(s).paths[k] == s.paths[k]
  {
    if 0 <= s.row < |s.paths| - 1 {
      SwapPermutes(s.paths, s.row, s.row + 1);
    }
  }

  /** Moving an entry up and then down again restores the list and the selection. */
  lemma MoveUpThenDown(s: Selection)
    requires ValidRow(s) && s.row > 0
    ensures MoveDown(MoveUp(s)) == s
  {
    var u := MoveUp(s);
    assert MoveDown(u).paths == s.paths;
  }

  /** Moving an entry down and then up again restores the list and the selection. */
  lemma MoveDownThenUp(s: Selection)
    requires ValidRow(s) && 0 <= s.row < |s.paths| - 1
    ensures MoveUp(MoveDown(s)) == s
  {
    var d := MoveDown(s);
    assert MoveUp(d).paths == s.paths;
  }

  // The file list (lines 525-528).

  /** The label of the entry at 0-based position `i`: its 1-based number padded to two digits, a dot, a space and the base name of its path. */
  function Label(i: nat, path: string): string {
    PadDecimal(i + 1, 2) + ". " + Basename(path)
  }

  /**
    `update_file_list`: one label per entry, in list order; each label reads
    back as its entry's 1-based number and the base name of its path, and no
    two labels are equal, even when two files share a base name.
  */
  function FileList(paths: seq<string>): (labels: seq<string>)
    ensures |labels| == |paths|
    ensures forall i :: 0 <= i < |paths| ==> labels[i] == Label(i, paths[i])
    ensures forall i :: 0 <= i < |paths| ==> ParseLabel(labels[i]) == Some((i + 1, Basename(paths[i])))
    ensures forall i, j :: 0 <= i < j < |paths| ==> labels[i] != labels[j]
  {
    LabelsRead(paths);
    seq(|paths|, i requires 0 <= i < |paths| => Label(i, paths[i]))
  }

  /** Reads a label back: the number before the first '.', and what follows ". ". */
  function ParseLabel(line: string): Option<(nat, string)> {
    match Find(line, '.')
    case None => None
    case Some(k) =>
      if k == 0 || !AllDigits(line[..k]) || k + 1 >= |line| || line[k + 1] != ' ' then None
      else Some((DigitsValue(line[..k]), line[k + 2..]))
  }

  /** A number, a '.', a space and a text read back as that number and that text. */
  lemma ParseLabelOf(d: string, b: string)
    requires d != [] && AllDigits(d)
    ensures ParseLabel(d + ['.'] + ([' '] + b)) == Some((DigitsValue(d), b))
  {
    var l := d + ['.'] + ([' '] + b);
    assert '.' !in d by {
      forall j | 0 <= j < |d| ensures d[j] != '.' {
        assert IsDigit(d[j]);
      }
    }
    FindAfter(d, '.', [' '] + b);
    assert l[..|d|] == d && l[|d| + 1] == ' ' && l[|d| + 2..] == b;
  }

  /** A label gives back the entry's 1-based number and the base name of its path. */
  lemma LabelRoundTrip(i: nat, path: string)
    ensures ParseLabel(Label(i, path)) == Some((i + 1, Basename(path)))
  {
    var d := PadDecimal(i + 1, 2);
    var b := Basename(path);
    assert Label(i, path) == d + ['.'] + ([' '] + b);
    ParseLabelOf(d, b);
    PadDecimalRoundTrip(i + 1, 2);
  }

  /** Every label of a list reads back, so labels at two positions differ. */
  lemma LabelsRead(paths: seq<string>)
    ensures forall i :: 0 <= i < |paths| ==> ParseLabel(Label(i, paths[i])) == Some((i + 1, Basename(paths[i])))
    ensures forall i, j :: 0 <= i < j < |paths| ==> Label(i, paths[i]) != Label(j, paths[j])
  {
    forall i | 0 <= i < |paths| ensures ParseLabel(Label(i, paths[i])) == Some((i + 1, Basename(paths[i]))) {
      LabelRoundTrip(i, paths[i]);
    }
  }

  /**
    A label is never the bare base name of its own path. `remove_selected`
    (line 453) compares the selected label with the base name of every path, so
    it never removes the selected entry's own path; it removes another path only
    when that path's base name happens to equal the label.
  */
  lemma LabelIsNotBasename(i: nat, path: string)
    ensures Label(i, path) != Basename(path)
  {
    assert |Label(i, path)| == |PadDecimal(i + 1, 2)| + 2 + |Basename(path)|;
  }
}

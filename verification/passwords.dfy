/**
 * The ordered password search the alipay and wechat extractors share:
 * preparing the candidate list from the password file, trying candidates
 * until one unpacks the archive, and renaming what was unpacked.
 */
module Passwords {
  import opened Wrappers
  import opened Text
  import opened Paths
  import opened Host
  import opened Extraction

  /** What one line contributes to the candidate list: its stripped text, unless that is empty. */
  function LineCandidate(line: string): (r: seq<string>)
    ensures r == [] <==> Strip(line) == ""
    ensures r != [] ==> r == [Strip(line)]
  {
    if Strip(line) == "" then [] else [Strip(line)]
  }

  /** `[line.strip() for line in lines if line.strip()]` */
  function NonBlank(lines: seq<string>): (r: seq<string>)
    ensures |r| <= |lines|
    decreases |lines|
  {
    if lines == [] then [] else LineCandidate(lines[0]) + NonBlank(lines[1..])
  }

  /** Every line kept is non-empty and has nothing left to strip. */
  lemma {:induction false} NonBlankClean(lines: seq<string>)
    ensures forall k :: 0 <= k < |NonBlank(lines)| ==> NonBlank(lines)[k] != "" && Stripped(NonBlank(lines)[k])
    decreases |lines|
  {
    if lines != [] {
      StripResult(lines[0]);
      NonBlankClean(lines[1..]);
    }
  }

  /** No line contributes exactly when the list is empty. */
  lemma {:induction false} NothingKept(lines: seq<string>)
    ensures NonBlank(lines) == [] <==> forall k :: 0 <= k < |lines| ==> LineCandidate(lines[k]) == []
    decreases |lines|
  {
    if lines != [] {
      var t := lines[1..];
      NothingKept(t);
      assert forall k :: 0 <= k < |t| ==> t[k] == lines[k + 1];
    }
  }

  /** No candidate survives exactly when every line of the file strips to nothing (is blank, by `StripResult`). */
  lemma NonBlankEmpty(lines: seq<string>)
    ensures NonBlank(lines) == [] <==> forall k :: 0 <= k < |lines| ==> Strip(lines[k]) == ""
  {
    NothingKept(lines);
  }

  /** The candidate list in the order it is tried: the non-blank stripped lines, last line first. */
  function Candidates(lines: seq<string>): (r: seq<string>)
    ensures |r| <= |lines|
    ensures forall k :: 0 <= k < |r| ==> r[k] != "" && Stripped(r[k])
  {
    NonBlankClean(lines);
    Reverse(NonBlank(lines))
  }

  /** Keeping non-blank lines commutes with concatenating files. */
  lemma {:induction false} NonBlankAppend(a: seq<string>, b: seq<string>)
    ensures NonBlank(a + b) == NonBlank(a) + NonBlank(b)
    decreases |a|
  {
    if a == [] {
      assert a + b == b;
    } else {
      assert (a + b)[0] == a[0];
      assert (a + b)[1..] == a[1..] + b;
      NonBlankAppend(a[1..], b);
    }
  }

  /** A one-line file contributes that line's candidate, so with `NonBlankAppend` the list is the lines' candidates in order. */
  lemma NonBlankOne(line: string)
    ensures NonBlank([line]) == LineCandidate(line)
  {
    assert [line][1..] == [];
  }

  /** A non-blank line appended to the password file becomes the first candidate; a blank one changes nothing. */
  lemma LastLineFirst(lines: seq<string>, line: string)
    ensures Strip(line) != "" ==> Candidates(lines + [line]) == [Strip(line)] + Candidates(lines)
    ensures Strip(line) == "" ==> Candidates(lines + [line]) == Candidates(lines)
  {
    NonBlankAppend(lines, [line]);
    NonBlankOne(line);
    if Strip(line) != "" {
      ReverseSnoc(NonBlank(lines), Strip(line));
    } else {
      assert NonBlank(lines) + [] == NonBlank(lines);
    }
  }

  /** A file of clean, non-blank lines is tried exactly in reverse file order. */
  lemma {:induction false} CleanFileReversed(lines: seq<string>)
    requires forall k :: 0 <= k < |lines| ==> lines[k] != "" && Stripped(lines[k])
    ensures Candidates(lines) == Reverse(lines)
    decreases |lines|
  {
    if lines != [] {
      var n := |lines| - 1;
      var init := lines[..n];
      assert lines == init + [lines[n]];
      CleanFileReversed(init);
      StrippedFixed(lines[n]);
      LastLineFirst(init, lines[n]);
      ReverseSnoc(init, lines[n]);
    }
  }

  /** Password lines `p1, p2, p3` are tried as `p3, p2, p1`. */
  lemma ThreeLineOrder(p1: string, p2: string, p3: string)
    requires p1 != "" && p2 != "" && p3 != ""
    requires Stripped(p1) && Stripped(p2) && Stripped(p3)
    ensures Candidates([p1, p2, p3]) == [p3, p2, p1]
  {
    CleanFileReversed([p1, p2, p3]);
  }

  /** The `password_file` entry as an extractor reads it from its configuration. */
  datatype PasswordConfig =
    | NotSet              // the entry is absent or falsy
    | File(path: string)  // the entry is text
    | BadEntry            // reading the entry raises: the parameters are not a mapping, or the entry is not a path

  /** The outcome of reading the configured password file. */
  datatype Loaded =
    | NoFile          // `password_file` unset, empty, or not an existing path
    | ReadError       // reading the entry, or opening or reading the file, raised
    | Empty           // no non-blank line
    | Ready(candidates: seq<string>)

  /** The entry names a file that exists, so the extractor goes on to read it. */
  predicate Exists(setting: PasswordConfig, host: Host) {
    setting.File? && setting.path != "" && host.pathExists(setting.path)
  }

  /**
   * `if not password_file or not os.path.exists(password_file)`, then reading
   * the file and preparing the candidate list; an exception on the way is
   * caught by the extractor.
   */
  function Load(setting: PasswordConfig, host: Host): (r: Loaded)
    ensures r.NoFile? <==> setting.NotSet? || (setting.File? && !Exists(setting, host))
    ensures r.ReadError? <==> setting.BadEntry? || (Exists(setting, host) && host.readLines(setting.path).None?)
    ensures r.Ready? || r.Empty? ==> Exists(setting, host) && host.readLines(setting.path).Some?
    ensures Exists(setting, host) && host.readLines(setting.path).Some? ==>
              && (Candidates(host.readLines(setting.path).value) == [] ==> r == Empty)
              && (Candidates(host.readLines(setting.path).value) != [] ==> r == Ready(Candidates(host.readLines(setting.path).value)))
  {
    match setting
    case NotSet => NoFile
    case BadEntry => ReadError
    case File(path) =>
      if path == "" || !host.pathExists(path) then NoFile
      else match host.readLines(path)
        case None => ReadError
        case Some(lines) =>
          var c := Candidates(lines);
          if c == [] then Empty else Ready(c)
  }

  /** An attempt that lets the search move on: a refusal, or a crash when crashes do not stop the search. */
  predicate Miss(a: Attempt, crashStops: bool) {
    a.Refused? || (a.Crashed? && !crashStops)
  }

  /** Where the search stopped; `tries` counts the candidates attempted, the last of them included. */
  datatype Search = Found(tries: nat, files: seq<string>) | Exhausted | Aborted(tries: nat)

  /**
   * Candidates `i..` tried in order against `attempt`: the first that unpacks
   * wins and nothing after it is tried; a refusal moves on; a crash moves on or
   * ends the search, depending on `crashStops`.
   */
  function SearchFrom(cands: seq<string>, attempt: string -> Attempt, crashStops: bool, i: nat): (r: Search)
    requires i <= |cands|
    ensures r.Found? ==> i < r.tries <= |cands| && attempt(cands[r.tries - 1]) == Unpacked(r.files)
    ensures r.Aborted? ==> crashStops && i < r.tries <= |cands| && attempt(cands[r.tries - 1]).Crashed?
    ensures !r.Exhausted? ==> forall j :: i <= j < r.tries - 1 ==> Miss(attempt(cands[j]), crashStops)
    ensures r.Exhausted? <==> forall j :: i <= j < |cands| ==> Miss(attempt(cands[j]), crashStops)
    decreases |cands| - i
  {
    if i == |cands| then Exhausted
    else match attempt(cands[i])
      case Unpacked(files) => Found(i + 1, files)
      case Refused => SearchFrom(cands, attempt, crashStops, i + 1)
      case Crashed => if crashStops then Aborted(i + 1) else SearchFrom(cands, attempt, crashStops, i + 1)
  }

  /** The whole candidate list, from the first candidate. */
  function SearchAll(cands: seq<string>, attempt: string -> Attempt, crashStops: bool): Search {
    SearchFrom(cands, attempt, crashStops, 0)
  }

  /** The first candidate that unpacks ends the search at once, whatever the others would do. */
  lemma FirstCandidateWins(cands: seq<string>, attempt: string -> Attempt, crashStops: bool)
    requires cands != [] && attempt(cands[0]).Unpacked?
    ensures SearchAll(cands, attempt, crashStops) == Found(1, attempt(cands[0]).files)
  {
  }

  /**
   * The first candidate from `i` on that is not a miss decides the search:
   * it wins if it unpacked, and otherwise its crash ends the search.
   */
  lemma {:induction false} SearchStopsAt(cands: seq<string>, attempt: string -> Attempt, crashStops: bool, i: nat, n: nat)
    requires i <= n < |cands| && !Miss(attempt(cands[n]), crashStops)
    requires forall j :: i <= j < n ==> Miss(attempt(cands[j]), crashStops)
    ensures attempt(cands[n]).Unpacked? ==> SearchFrom(cands, attempt, crashStops, i) == Found(n + 1, attempt(cands[n]).files)
    ensures !attempt(cands[n]).Unpacked? ==> SearchFrom(cands, attempt, crashStops, i) == Aborted(n + 1)
    decreases n - i
  {
    if i < n {
      assert Miss(attempt(cands[i]), crashStops);
      SearchStopsAt(cands, attempt, crashStops, i + 1, n);
    }
  }

  /**
   * Every unpacked file moves to `extract_dir` under the provider prefix plus
   * its own basename, whatever subdirectory of the archive it came from.
   */
  function Relocate(prefix: string, extractDir: string, files: seq<string>): (r: seq<Output>)
    requires '/' !in prefix
    ensures |r| == |files|
    ensures forall k :: 0 <= k < |r| ==> r[k] == Moved(files[k], PathJoin(extractDir, prefix + Basename(files[k])))
    ensures forall k :: 0 <= k < |r| ==> Basename(r[k].target) == prefix + Basename(files[k])
    ensures extractDir == "" || extractDir[|extractDir| - 1] != '/' ==> forall k :: 0 <= k < |r| ==> Dirname(r[k].target) == extractDir
  {
    var r := seq(|files|, k requires 0 <= k < |files| => Moved(files[k], PathJoin(extractDir, prefix + Basename(files[k]))));
    forall k | 0 <= k < |r|
      ensures Basename(r[k].target) == prefix + Basename(files[k])
      ensures extractDir == "" || extractDir[|extractDir| - 1] != '/' ==> Dirname(r[k].target) == extractDir
    {
      var name := prefix + Basename(files[k]);
      assert '/' !in name;
      BasenameOfJoin(extractDir, name);
      if extractDir == "" || extractDir[|extractDir| - 1] != '/' {
        DirnameOfJoin(extractDir, name);
      }
    }
    r
  }

  /**
   * The extraction a password search ends in: a win moves the files and
   * reports success, exhaustion and an escaped crash are failures. `tried`
   * is always the attempted prefix of the candidate list.
   */
  function Conclude(s: Search, cands: seq<string>, prefix: string, extractDir: string): (r: Extraction)
    requires '/' !in prefix
    requires s.Found? || s.Aborted? ==> 0 < s.tries <= |cands|
    ensures r.Applicable()
    ensures r.Success() <==> s.Found?
    ensures s.Found? ==> r.tried == cands[..s.tries] && r.outputs == Relocate(prefix, extractDir, s.files)
    ensures s.Exhausted? ==> r == Failed(NoPasswordWorked, cands)
    ensures s.Aborted? ==> r == Failed(Unexpected, cands[..s.tries])
  {
    match s
    case Found(n, files) => Done(cands[..n], Relocate(prefix, extractDir, files))
    case Exhausted => Failed(NoPasswordWorked, cands)
    case Aborted(n) => Failed(Unexpected, cands[..n])
  }

  /**
   * The whole password stage once the candidates are known: search, then
   * conclude. A success names the first candidate that unpacked, all earlier
   * ones having missed, and moves what it unpacked; exhaustion means every
   * candidate missed; an escaped crash is the first candidate that was not a miss.
   */
  function Trial(cands: seq<string>, attempt: string -> Attempt, crashStops: bool, prefix: string, extractDir: string): (r: Extraction)
    requires '/' !in prefix
    ensures r.Applicable()
    ensures r.Done? ==> && 0 < |r.tried| <= |cands| && r.tried == cands[..|r.tried|]
                        && attempt(cands[|r.tried| - 1]).Unpacked?
                        && (forall j :: 0 <= j < |r.tried| - 1 ==> Miss(attempt(cands[j]), crashStops))
                        && r.outputs == Relocate(prefix, extractDir, attempt(cands[|r.tried| - 1]).files)
    ensures r.Failed? ==> r.why == NoPasswordWorked || (crashStops && r.why == Unexpected)
    ensures r.Failed? && r.why == NoPasswordWorked ==>
              r.tried == cands && forall j :: 0 <= j < |cands| ==> Miss(attempt(cands[j]), crashStops)
    ensures r.Failed? && r.why == Unexpected ==>
              && 0 < |r.tried| <= |cands| && r.tried == cands[..|r.tried|]
              && attempt(cands[|r.tried| - 1]).Crashed?
              && (forall j :: 0 <= j < |r.tried| - 1 ==> Miss(attempt(cands[j]), crashStops))
  {
    var s := SearchAll(cands, attempt, crashStops);
    assert !s.Exhausted? ==> forall j :: 0 <= j < s.tries - 1 ==> Miss(attempt(cands[j]), crashStops);
    Conclude(s, cands, prefix, extractDir)
  }

  /** The converse: a candidate that unpacks after nothing but misses is the one that wins, with its files moved. */
  lemma TrialWins(cands: seq<string>, attempt: string -> Attempt, crashStops: bool, prefix: string, extractDir: string, n: nat)
    requires '/' !in prefix
    requires n < |cands| && attempt(cands[n]).Unpacked?
    requires forall j :: 0 <= j < n ==> Miss(attempt(cands[j]), crashStops)
    ensures Trial(cands, attempt, crashStops, prefix, extractDir)
            == Done(cands[..n + 1], Relocate(prefix, extractDir, attempt(cands[n]).files))
  {
    SearchStopsAt(cands, attempt, crashStops, 0, n);
  }
}

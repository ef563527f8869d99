/**
 * The alipay provider: mails mentioning 支付宝 carry the bill as a zip
 * attachment, saved as `alipay_<filename>`, and later unpacked with the
 * first password from the password file that opens it.
 */
module Alipay {
  import opened Wrappers
  import opened Text
  import opened Paths
  import opened Host
  import opened Mail
  import opened Extraction
  import opened Passwords

  const Keyword: string := "支付宝"
  const Prefix: string := "alipay_"
  const Suffix: string := ".zip"

  /** The keyword occurs in the subject or in the sender, an absent header reading as "". */
  predicate Match(subject: Option<string>, sender: Option<string>) {
    Contains(OrEmpty(subject), Keyword) || Contains(OrEmpty(sender), Keyword)
  }

  /** The `in` tests read as "the keyword occurs somewhere"; a missing header reads as empty and never matches. */
  lemma MatchIff(subject: Option<string>, sender: Option<string>)
    ensures Match(subject, sender) <==> (exists i :: OccursAt(OrEmpty(subject), Keyword, i)) || (exists i :: OccursAt(OrEmpty(sender), Keyword, i))
    ensures !Match(None, None)
  {
    ContainsIff(OrEmpty(subject), Keyword);
    ContainsIff(OrEmpty(sender), Keyword);
    assert !Contains("", Keyword);
  }

  /** `if filename:` — a part counts as an attachment when it has a non-empty filename. */
  predicate Named(p: Part) {
    p.filename.Some? && p.filename.value != ""
  }

  /** The attachments of a walk, in walk order. */
  function Attachments(parts: seq<Part>): (r: seq<Part>)
    ensures |r| <= |parts|
    ensures forall k :: 0 <= k < |r| ==> Named(r[k])
    ensures r == [] <==> forall k :: 0 <= k < |parts| ==> !Named(parts[k])
    decreases |parts|
  {
    if parts == [] then []
    else (if Named(parts[0]) then [parts[0]] else []) + Attachments(parts[1..])
  }

  /** Keeping the attachments commutes with splitting the walk. */
  lemma {:induction false} AttachmentsAppend(a: seq<Part>, b: seq<Part>)
    ensures Attachments(a + b) == Attachments(a) + Attachments(b)
    decreases |a|
  {
    if a == [] {
      assert a + b == b;
    } else {
      assert (a + b)[0] == a[0];
      assert (a + b)[1..] == a[1..] + b;
      AttachmentsAppend(a[1..], b);
    }
  }

  /** A single part is an attachment exactly when it has a non-empty filename; with `AttachmentsAppend`, no named part is lost. */
  lemma AttachmentsOne(p: Part)
    ensures Attachments([p]) == if Named(p) then [p] else []
  {
    assert [p][1..] == [];
  }

  /** Where an attachment is saved: `alipay_` plus its filename, in the staging directory. */
  function SavedPath(p: Part, outputDir: string): string {
    PathJoin(outputDir, Prefix + OrEmpty(p.filename))
  }

  /** An attachment is saved when its file can be written and it has a payload to write. */
  predicate Saves(p: Part, outputDir: string, host: Host) {
    p.payload.Some? && host.canWrite(SavedPath(p, outputDir))
  }

  /** The file written for an attachment that is saved: its payload under its saved path. */
  function Saved(p: Part, outputDir: string): Artifact
    requires p.payload.Some?
  {
    Artifact(SavedPath(p, outputDir), Binary(p.payload.value))
  }

  /** The index of the first attachment that is not saved, or `|atts|` when all are. */
  function FirstUnsaved(atts: seq<Part>, outputDir: string, host: Host): (i: nat)
    ensures i <= |atts|
    ensures i < |atts| ==> !Saves(atts[i], outputDir, host)
    ensures forall j :: 0 <= j < i ==> Saves(atts[j], outputDir, host)
    decreases |atts|
  {
    if atts == [] || !Saves(atts[0], outputDir, host) then 0
    else 1 + FirstUnsaved(atts[1..], outputDir, host)
  }

  /**
   * Saving attachments in order. A file that cannot be written, or a part
   * without a payload, raises, which ends the walk: the files written so far
   * stay, and the result is a failure.
   */
  function SaveAll(atts: seq<Part>, outputDir: string, host: Host): (r: Parsed)
    ensures |r.written| <= |atts|
    ensures forall k :: 0 <= k < |r.written| ==>
              Saves(atts[k], outputDir, host) && r.written[k] == Saved(atts[k], outputDir)
    ensures r.ok <==> |r.written| == |atts|
    ensures !r.ok ==> !Saves(atts[|r.written|], outputDir, host)
  {
    var n := FirstUnsaved(atts, outputDir, host);
    Parsed(n == |atts|, seq(n, k requires 0 <= k < n => Saved(atts[k], outputDir)))
  }

  /**
   * `parse`: every attachment of the walk is saved, in walk order, as
   * `alipay_<filename>` holding its payload; it succeeds when all of them are
   * saved, and in particular, having written nothing, when there is none.
   */
  function Parse(m: Message, outputDir: string, host: Host): (r: Parsed)
    ensures Attachments(Walk(m)) == [] ==> r == Parsed(true, [])
    ensures |r.written| <= |Attachments(Walk(m))|
    ensures forall k :: 0 <= k < |r.written| ==>
              var a := Attachments(Walk(m))[k];
              a.payload.Some? && r.written[k] == Artifact(PathJoin(outputDir, Prefix + a.filename.value), Binary(a.payload.value))
    ensures r.ok <==> forall k :: 0 <= k < |Attachments(Walk(m))| ==> Saves(Attachments(Walk(m))[k], outputDir, host)
    ensures r.ok ==> |r.written| == |Attachments(Walk(m))|
  {
    var atts := Attachments(Walk(m));
    var r := SaveAll(atts, outputDir, host);
    assert !r.ok ==> !Saves(atts[|r.written|], outputDir, host);
    r
  }

  /** The applicability test, made on the whole path it is given rather than on its basename. */
  predicate Applicable(filename: string) {
    StartsWith(filename, Prefix) && EndsWith(filename, Suffix)
  }

  /** The names accepted are exactly `alipay_`, anything, `.zip`. */
  lemma ApplicableIff(filename: string)
    ensures Applicable(filename) <==> exists mid :: filename == Prefix + mid + Suffix
  {
    assert Suffix[0] !in Prefix;
    Framed(filename, Prefix, Suffix);
  }

  /** The archive trial `zip_ref.extractall(temp_dir, pwd=password)` for this file. */
  function ZipAttempt(host: Host, filename: string): string -> Attempt {
    pw => host.zipTry(filename, pw)
  }

  /** `tried` is a non-empty prefix of `c` whose candidates before the last were all wrong passwords. */
  predicate RefusedUpToLast(filename: string, c: seq<string>, tried: seq<string>, host: Host) {
    && 0 < |tried| <= |c| && tried == c[..|tried|]
    && forall j :: 0 <= j < |tried| - 1 ==> host.zipTry(filename, c[j]).Refused?
  }

  /** The search won with the last candidate of `tried`, and its files are the ones moved. */
  predicate Won(filename: string, extractDir: string, c: seq<string>, r: Extraction, host: Host)
    requires r.Done?
  {
    && RefusedUpToLast(filename, c, r.tried, host)
    && host.zipTry(filename, c[|r.tried| - 1]).Unpacked?
    && r.outputs == Relocate(Prefix, extractDir, host.zipTry(filename, c[|r.tried| - 1]).files)
  }

  /** The search was ended by an exception other than a wrong password, at the last candidate of `tried`. */
  predicate Crashed(filename: string, c: seq<string>, tried: seq<string>, host: Host) {
    RefusedUpToLast(filename, c, tried, host) && host.zipTry(filename, c[|tried| - 1]).Crashed?
  }

  /**
   * The password stage of `extract` on an archive that opens: candidates in
   * order, a wrong password moves on, and any other exception ends the search.
   */
  function Unlock(filename: string, extractDir: string, c: seq<string>, host: Host): (r: Extraction)
    ensures r.Applicable()
    ensures r.Done? ==> Won(filename, extractDir, c, r, host)
    ensures r.Failed? ==> r.why == NoPasswordWorked || r.why == Unexpected
    ensures r.Failed? && r.why == NoPasswordWorked ==>
              r.tried == c && forall j :: 0 <= j < |c| ==> host.zipTry(filename, c[j]).Refused?
    ensures r.Failed? && r.why == Unexpected ==> Crashed(filename, c, r.tried, host)
  {
    Trial(c, ZipAttempt(host, filename), true, Prefix, extractDir)
  }

  /**
   * `extract`: skip unless the path is an `alipay_*.zip`; the configuration
   * exits come before any archive is opened; then candidates are tried in
   * order, a wrong password moves on, and any other exception ends the search.
   */
  function Extract(filename: string, extractDir: string, passwordFile: PasswordConfig, host: Host): (r: Extraction)
    ensures r.Applicable() <==> Applicable(filename)
    ensures Applicable(filename) && Load(passwordFile, host).NoFile? ==> r == Failed(PasswordFileMissing, [])
    ensures Applicable(filename) && Load(passwordFile, host).Empty? ==> r == Failed(NoPasswords, [])
    ensures Applicable(filename) && Load(passwordFile, host).ReadError? ==> r == Failed(Unexpected, [])
    ensures Applicable(filename) && Load(passwordFile, host).Ready? && !host.zipOpens(filename) ==> r == Failed(Unexpected, [])
    ensures Applicable(filename) && Load(passwordFile, host).Ready? && host.zipOpens(filename) ==>
              r == Unlock(filename, extractDir, Load(passwordFile, host).candidates, host)
    ensures r.Done? ==> && Load(passwordFile, host).Ready? && host.zipOpens(filename)
                        && Won(filename, extractDir, Load(passwordFile, host).candidates, r, host)
    ensures r.Failed? && r.why == NoPasswordWorked ==>
              && Load(passwordFile, host).Ready?
              && var c := Load(passwordFile, host).candidates;
              && r.tried == c
              && forall j :: 0 <= j < |c| ==> host.zipTry(filename, c[j]).Refused?
    ensures r.Failed? && r.why == Unexpected ==>
              || Load(passwordFile, host).ReadError?
              || (Load(passwordFile, host).Ready? && !host.zipOpens(filename))
              || (Load(passwordFile, host).Ready? && Crashed(filename, Load(passwordFile, host).candidates, r.tried, host))
  {
    if !Applicable(filename) then Skipped(NameMismatch)
    else match Load(passwordFile, host)
      case NoFile => Failed(PasswordFileMissing, [])
      case ReadError => Failed(Unexpected, [])
      case Empty => Failed(NoPasswords, [])
      case Ready(c) =>
        if !host.zipOpens(filename) then Failed(Unexpected, [])
        else Unlock(filename, extractDir, c, host)
  }

  /**
   * The converse of the success clause: when the archive opens and candidate
   * `n` unpacks it after only wrong passwords, the extraction succeeds with
   * it and moves its files.
   */
  lemma ExtractWins(filename: string, extractDir: string, passwordFile: PasswordConfig, host: Host, n: nat)
    requires Applicable(filename) && Load(passwordFile, host).Ready? && host.zipOpens(filename)
    requires var c := Load(passwordFile, host).candidates;
             && n < |c| && host.zipTry(filename, c[n]).Unpacked?
             && forall j :: 0 <= j < n ==> host.zipTry(filename, c[j]).Refused?
    ensures var c := Load(passwordFile, host).candidates;
            Extract(filename, extractDir, passwordFile, host)
            == Done(c[..n + 1], Relocate(Prefix, extractDir, host.zipTry(filename, c[n]).files))
  {
    var c := Load(passwordFile, host).candidates;
    var attempt := ZipAttempt(host, filename);
    assert forall j :: 0 <= j < n ==> Miss(attempt(c[j]), true);
    TrialWins(c, attempt, true, Prefix, extractDir, n);
  }

  /** No absolute path passes the applicability test, so the extractor never applies to one. */
  lemma AbsolutePathSkipped(filename: string, extractDir: string, passwordFile: PasswordConfig, host: Host)
    requires IsAbs(filename)
    ensures Extract(filename, extractDir, passwordFile, host) == Skipped(NameMismatch)
  {
    assert filename[0] == '/';
    assert Prefix[0] == 'a';
  }
}

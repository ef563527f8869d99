/**
 * The wechat provider: mails mentioning 微信支付 link to the bill; the parser
 * follows the 点击下载 link and saves the download as `wechat_<name>`, and the
 * extractor unpacks it with the external `7z` tool, trying each password.
 */
module Wechat {
  import opened Wrappers
  import opened Text
  import opened Paths
  import opened Host
  import opened Mail
  import opened Extraction
  import opened Passwords

  const Keyword: string := "微信支付"
  const Prefix: string := "wechat_"
  const Suffix: string := ".zip"
  const Param: string := "filename="

  /** The keyword occurs in the sender or in the subject, an absent header reading as "". */
  predicate Match(subject: Option<string>, sender: Option<string>) {
    Contains(OrEmpty(sender), Keyword) || Contains(OrEmpty(subject), Keyword)
  }

  /** The `in` tests read as "the keyword occurs somewhere"; a missing header reads as empty and never matches. */
  lemma MatchIff(subject: Option<string>, sender: Option<string>)
    ensures Match(subject, sender) <==> (exists i :: OccursAt(OrEmpty(sender), Keyword, i)) || (exists i :: OccursAt(OrEmpty(subject), Keyword, i))
    ensures !Match(None, None)
  {
    ContainsIff(OrEmpty(sender), Keyword);
    ContainsIff(OrEmpty(subject), Keyword);
    assert !Contains("", Keyword);
  }

  /** The longest run of non-quote characters of `h` starting at `p`. */
  function QuoteFreeRun(h: string, p: nat): (r: string)
    requires p <= |h|
    ensures '"' !in r
    ensures p + |r| <= |h| && r == h[p..p + |r|]
    ensures p + |r| == |h| || h[p + |r|] == '"'
    decreases |h| - p
  {
    if p == |h| || h[p] == '"' then "" else [h[p]] + QuoteFreeRun(h, p + 1)
  }

  /** A quote-free stretch of `h` ended by a quote or by the end of `h` is the run found there. */
  lemma {:induction false} QuoteFreeRunIs(h: string, p: nat, v: string)
    requires p + |v| <= |h| && h[p..p + |v|] == v && '"' !in v
    requires p + |v| == |h| || h[p + |v|] == '"'
    ensures QuoteFreeRun(h, p) == v
    decreases |v|
  {
    if v != [] {
      assert h[p] == v[0] && v[0] in v;
      assert h[p + 1..p + |v|] == v[1..];
      QuoteFreeRunIs(h, p + 1, v[1..]);
    }
  }

  /** Where the value of a `filename=` starting at `i` begins: after the optional opening quote. */
  function ValueStart(h: string, i: nat): nat
    requires i + |Param| <= |h|
  {
    var p := i + |Param|;
    if p < |h| && h[p] == '"' then p + 1 else p
  }

  /**
   * The regular expression `filename="?([^"]+)"?` tried at offset `i`: the
   * group is the non-empty run of non-quote characters after `filename=` and
   * an optional quote. When the quote is followed by nothing usable, dropping
   * the optional quote does not help, since the run would then start at it.
   */
  function ParamAt(h: string, i: nat): (r: Option<string>)
    requires i <= |h|
    ensures r.Some? ==> && i + |Param| <= |h| && h[i..i + |Param|] == Param
                        && r.value != "" && r.value == QuoteFreeRun(h, ValueStart(h, i))
  {
    if !StartsWith(h[i..], Param) then None
    else
      var v := QuoteFreeRun(h, ValueStart(h, i));
      if v != "" then Some(v) else None
  }

  /** The offset of the leftmost match at or after `i`, or `|h| + 1` when there is none. */
  function FirstParamAt(h: string, i: nat): (j: nat)
    requires i <= |h|
    ensures i <= j <= |h| + 1
    ensures j <= |h| ==> ParamAt(h, j).Some?
    ensures forall k :: i <= k < j && k <= |h| ==> ParamAt(h, k).None?
    decreases |h| - i
  {
    if ParamAt(h, i).Some? then i
    else if i == |h| then |h| + 1
    else FirstParamAt(h, i + 1)
  }

  /** A search from `from` stops at `i` when `i` matches and nothing between them does. */
  lemma {:induction false} FirstParamAtIs(h: string, from: nat, i: nat)
    requires from <= i <= |h| && ParamAt(h, i).Some?
    requires forall k :: from <= k < i ==> ParamAt(h, k).None?
    ensures FirstParamAt(h, from) == i
    decreases i - from
  {
    if from < i {
      FirstParamAtIs(h, from + 1, i);
    }
  }

  /** No match can start at a character other than `f`. */
  lemma NoMatchOffF(h: string, k: nat)
    requires k < |h| && h[k] != 'f'
    ensures ParamAt(h, k).None?
  {
    assert h[k..][0] == h[k];
  }

  /** `re.findall(r'filename="?([^"]+)"?', h)[0]`, or None when the list is empty. */
  function FilenameParam(h: string): (r: Option<string>)
    ensures r.Some? ==> '"' !in r.value && r.value != "" && exists i :: 0 <= i <= |h| && ParamAt(h, i) == r
    ensures r.None? <==> forall i :: 0 <= i <= |h| ==> ParamAt(h, i).None?
  {
    var j := FirstParamAt(h, 0);
    if j <= |h| then ParamAt(h, j) else None
  }

  /** A quoted filename after a lead-in without any `f` is found exactly. */
  lemma QuotedFilename(lead: string, name: string, rest: string)
    requires 'f' !in lead
    requires name != "" && '"' !in name
    ensures FilenameParam(lead + Param + "\"" + name + "\"" + rest) == Some(name)
  {
    var h := lead + Param + "\"" + name + "\"" + rest;
    var i := |lead|;
    assert h[i..i + |Param|] == Param;
    assert h[i + |Param|] == '"';
    var p := i + |Param| + 1;
    assert h[p..p + |name|] == name;
    assert h[p + |name|] == '"';
    QuoteFreeRunIs(h, p, name);
    forall k | 0 <= k < i
      ensures ParamAt(h, k).None?
    {
      assert h[k] == lead[k];
      NoMatchOffF(h, k);
    }
    assert h[i..][..|Param|] == Param;
    FirstParamAtIs(h, 0, i);
  }

  /** An unquoted filename runs to the next quote or the end of the header, parameters after it included. */
  lemma UnquotedFilename(lead: string, value: string)
    requires 'f' !in lead
    requires value != "" && '"' !in value
    ensures FilenameParam(lead + Param + value) == Some(value)
  {
    var h := lead + Param + value;
    var i := |lead|;
    assert h[i..i + |Param|] == Param;
    var p := i + |Param|;
    assert h[p..] == value;
    assert h[p] == value[0];
    assert h[p..p + |value|] == value;
    QuoteFreeRunIs(h, p, value);
    forall k | 0 <= k < i
      ensures ParamAt(h, k).None?
    {
      assert h[k] == lead[k];
      NoMatchOffF(h, k);
    }
    assert h[i..][..|Param|] == Param;
    FirstParamAtIs(h, 0, i);
  }

  /** The name the download is saved under, before the `wechat_` prefix is added. */
  function DownloadName(disposition: Option<string>, msgId: string, unquote: string -> string): (r: string)
    ensures r != ""
    ensures disposition.Some? && FilenameParam(disposition.value).Some? && unquote(FilenameParam(disposition.value).value) != ""
            ==> r == unquote(FilenameParam(disposition.value).value)
    ensures disposition.None? || FilenameParam(disposition.value).None? ==> r == Prefix + msgId + ".dat"
  {
    var name := match disposition
      case Some(h) => (match FilenameParam(h) case Some(v) => unquote(v) case None => "")
      case None => "";
    if name != "" then name else Prefix + msgId + ".dat"
  }

  /** The response whose body becomes the artifact, if every step up to the download succeeds. */
  function Download(m: Message, host: Host): (r: Option<Response>)
    ensures NoUsableBody(HtmlBody(m, host)) ==> r.None?
    ensures !NoUsableBody(HtmlBody(m, host)) && host.downloadLinks(HtmlBody(m, host).text) == [] ==> r.None?
    ensures r.Some? ==> && !NoUsableBody(HtmlBody(m, host))
                        && var links := host.downloadLinks(HtmlBody(m, host).text);
                        && links != [] && host.httpGet(links[0]) == r && r.value.status == 200
    ensures !NoUsableBody(HtmlBody(m, host)) && host.downloadLinks(HtmlBody(m, host).text) != []
            && (var resp := host.httpGet(host.downloadLinks(HtmlBody(m, host).text)[0]); resp.Some? && resp.value.status == 200)
            ==> r.Some?
  {
    var body := HtmlBody(m, host);
    if NoUsableBody(body) then None
    else
      var links := host.downloadLinks(body.text);
      if links == [] then None
      else match host.httpGet(links[0])
        case None => None
        case Some(resp) => if resp.status != 200 then None else Some(resp)
  }

  /** Where the download is saved: `wechat_` plus the download name, in the staging directory. */
  function SavedPath(resp: Response, msgId: string, outputDir: string, host: Host): string {
    PathJoin(outputDir, Prefix + DownloadName(resp.disposition, msgId, host.unquote))
  }

  /**
   * `parse`: fails, writing nothing, without an HTML body, without a download
   * link, without a 200 response, or when the file cannot be written;
   * otherwise saves exactly one artifact, named `wechat_` plus the
   * Content-Disposition filename or the fallback name.
   */
  function Parse(m: Message, msgId: string, outputDir: string, host: Host): (r: Parsed)
    ensures r.ok <==> Download(m, host).Some? && host.canWrite(SavedPath(Download(m, host).value, msgId, outputDir, host))
    ensures !r.ok ==> r.written == []
    ensures r.ok ==> && |r.written| == 1
                     && var resp := Download(m, host).value;
                     && r.written[0].path == PathJoin(outputDir, Prefix + DownloadName(resp.disposition, msgId, host.unquote))
                     && r.written[0].content == Binary(resp.content)
  {
    match Download(m, host)
    case None => Parsed(false, [])
    case Some(resp) =>
      var path := SavedPath(resp, msgId, outputDir, host);
      if !host.canWrite(path) then Parsed(false, [])
      else Parsed(true, [Artifact(path, Binary(resp.content))])
  }

  /** Without a usable filename the artifact is saved as `wechat_wechat_<id>.dat`: the prefix is added twice. */
  lemma FallbackDoublePrefix(disposition: Option<string>, msgId: string, unquote: string -> string)
    requires disposition.None? || FilenameParam(disposition.value).None?
    ensures Prefix + DownloadName(disposition, msgId, unquote) == "wechat_wechat_" + msgId + ".dat"
  {
  }

  /** The applicability test, made on the basename of the path. */
  predicate Applicable(filename: string) {
    StartsWith(Basename(filename), Prefix) && EndsWith(Basename(filename), Suffix)
  }

  /** The basenames accepted are exactly `wechat_`, anything, `.zip`. */
  lemma ApplicableIff(filename: string)
    ensures Applicable(filename) <==> exists mid :: Basename(filename) == Prefix + mid + Suffix
  {
    assert Suffix[0] !in Prefix;
    Framed(Basename(filename), Prefix, Suffix);
  }

  /** A download saved under a slash-free `.zip` name is one `extract` accepts. */
  lemma StagedIsApplicable(outputDir: string, name: string)
    requires '/' !in name && EndsWith(name, Suffix)
    ensures Applicable(PathJoin(outputDir, Prefix + name))
  {
    assert '/' !in Prefix;
    BasenameOfJoin(outputDir, Prefix + name);
    StartsWithAppend(Prefix, name);
    EndsWithAppend(Prefix, name, Suffix);
  }

  /** One `7z x <archive> -o<temp> -y -p<password>` run for this file. */
  function SevenZipAttempt(host: Host, filename: string): string -> Attempt {
    pw => host.sevenZipTry(filename, pw)
  }

  /**
   * The password stage of `extract`: candidates in order, where a non-zero
   * exit or an exception in one run is a miss and the first clean run wins.
   */
  function Unlock(filename: string, extractDir: string, c: seq<string>, host: Host): (r: Extraction)
    ensures r.Applicable()
    ensures r.Failed? ==> r.why == NoPasswordWorked
    ensures r.Done? ==> && 0 < |r.tried| <= |c| && r.tried == c[..|r.tried|]
                        && host.sevenZipTry(filename, c[|r.tried| - 1]).Unpacked?
                        && (forall j :: 0 <= j < |r.tried| - 1 ==> !host.sevenZipTry(filename, c[j]).Unpacked?)
                        && r.outputs == Relocate(Prefix, extractDir, host.sevenZipTry(filename, c[|r.tried| - 1]).files)
    ensures r.Failed? ==> r.tried == c && forall j :: 0 <= j < |c| ==> !host.sevenZipTry(filename, c[j]).Unpacked?
  {
    Trial(c, SevenZipAttempt(host, filename), false, Prefix, extractDir)
  }

  /**
   * `extract`: skip unless the basename is a `wechat_*.zip`; without `7z` on
   * PATH fail before the password file is consulted; then the configuration
   * exits; then candidates in order, where a non-zero exit or an exception in
   * one run is a miss and the first clean run wins.
   */
  function Extract(filename: string, extractDir: string, passwordFile: PasswordConfig, host: Host): (r: Extraction)
    ensures r.Applicable() <==> Applicable(filename)
    ensures r.Failed? && r.why == ToolMissing <==> Applicable(filename) && host.sevenZip.None?
    ensures Applicable(filename) && host.sevenZip.None? ==> r == Failed(ToolMissing, [])
    ensures Applicable(filename) && host.sevenZip.Some? && Load(passwordFile, host).NoFile? ==> r == Failed(PasswordFileMissing, [])
    ensures Applicable(filename) && host.sevenZip.Some? && Load(passwordFile, host).Empty? ==> r == Failed(NoPasswords, [])
    ensures r.Failed? && r.why == Unexpected <==> Applicable(filename) && host.sevenZip.Some? && Load(passwordFile, host).ReadError?
    ensures Applicable(filename) && host.sevenZip.Some? && Load(passwordFile, host).Ready? ==>
              r == Unlock(filename, extractDir, Load(passwordFile, host).candidates, host)
    ensures r.Done? ==>
              && host.sevenZip.Some? && Load(passwordFile, host).Ready?
              && var c := Load(passwordFile, host).candidates;
              && 0 < |r.tried| <= |c| && r.tried == c[..|r.tried|]
              && host.sevenZipTry(filename, c[|r.tried| - 1]).Unpacked?
              && (forall j :: 0 <= j < |r.tried| - 1 ==> !host.sevenZipTry(filename, c[j]).Unpacked?)
              && r.outputs == Relocate(Prefix, extractDir, host.sevenZipTry(filename, c[|r.tried| - 1]).files)
    ensures r.Failed? && r.why == NoPasswordWorked ==>
              && Load(passwordFile, host).Ready?
              && var c := Load(passwordFile, host).candidates;
              && r.tried == c
              && forall j :: 0 <= j < |c| ==> !host.sevenZipTry(filename, c[j]).Unpacked?
  {
    if !Applicable(filename) then Skipped(NameMismatch)
    else if host.sevenZip.None? then Failed(ToolMissing, [])
    else match Load(passwordFile, host)
      case NoFile => Failed(PasswordFileMissing, [])
      case ReadError => Failed(Unexpected, [])
      case Empty => Failed(NoPasswords, [])
      case Ready(c) => Unlock(filename, extractDir, c, host)
  }

  /**
   * The converse of the success clause: with `7z` present, candidate `n`
   * running cleanly after only failed runs makes the extraction succeed with
   * it and move its files.
   */
  lemma ExtractWins(filename: string, extractDir: string, passwordFile: PasswordConfig, host: Host, n: nat)
    requires Applicable(filename) && host.sevenZip.Some? && Load(passwordFile, host).Ready?
    requires var c := Load(passwordFile, host).candidates;
             && n < |c| && host.sevenZipTry(filename, c[n]).Unpacked?
             && forall j :: 0 <= j < n ==> !host.sevenZipTry(filename, c[j]).Unpacked?
    ensures var c := Load(passwordFile, host).candidates;
            Extract(filename, extractDir, passwordFile, host)
            == Done(c[..n + 1], Relocate(Prefix, extractDir, host.sevenZipTry(filename, c[n]).files))
  {
    var c := Load(passwordFile, host).candidates;
    var attempt := SevenZipAttempt(host, filename);
    assert forall j :: 0 <= j < n ==> Miss(attempt(c[j]), false);
    TrialWins(c, attempt, false, Prefix, extractDir, n);
  }
}

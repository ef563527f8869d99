/**
 * The two stages the command drives: fetching unread mail over IMAP and
 * handing each message to the parsers, and running every extractor over the
 * files the parsers staged; plus the path resolution both rely on.
 */
module Pipeline {
  import opened Wrappers
  import opened Text
  import opened Paths
  import opened Host
  import opened Mail
  import opened Extraction
  import opened Registry
  import Passwords
  import Alipay

  /** The `sender_filter` setting: absent, one address, or a list of addresses. */
  datatype SenderFilter = NoFilter | Single(sender: string) | Many(senders: seq<string>)

  /** Python truthiness of the setting: an empty string or list filters nothing. */
  predicate Filtering(f: SenderFilter) {
    match f
    case NoFilter => false
    case Single(s) => s != ""
    case Many(xs) => xs != []
  }

  /** `FROM "<sender>"` */
  function FromClause(s: string): string {
    "FROM \"" + s + "\""
  }

  function FromClauses(xs: seq<string>): (r: seq<string>)
    ensures |r| == |xs|
    ensures forall k :: 0 <= k < |xs| ==> r[k] == FromClause(xs[k])
  {
    seq(|xs|, k requires 0 <= k < |xs| => FromClause(xs[k]))
  }

  /** The list of search criteria: `UNSEEN`, then the sender condition when there is one. */
  function Criteria(f: SenderFilter): (r: seq<string>)
    ensures |r| >= 1 && r[0] == "UNSEEN"
    ensures |r| == 1 <==> !Filtering(f)
  {
    match f
    case NoFilter => ["UNSEEN"]
    case Single(s) => if s == "" then ["UNSEEN"] else ["UNSEEN", FromClause(s)]
    case Many(xs) => if xs == [] then ["UNSEEN"] else ["UNSEEN", "(" + Join(" OR ", FromClauses(xs)) + ")"]
  }

  /**
   * The IMAP search query: unread mail only, narrowed to one sender or to any
   * of a list of senders when a filter is set.
   */
  function SearchQuery(f: SenderFilter): (r: string)
    ensures !Filtering(f) ==> r == "(UNSEEN)"
    ensures f.Single? && Filtering(f) ==> r == "(UNSEEN " + FromClause(f.sender) + ")"
    ensures f.Many? && Filtering(f) ==> r == "(UNSEEN (" + Join(" OR ", FromClauses(f.senders)) + "))"
    ensures f.Many? ==> forall k :: 0 <= k < |f.senders| ==> Contains(r, FromClause(f.senders[k]))
  {
    var c := Criteria(f);
    var r := "(" + Join(" ", c) + ")";
    assert |c| == 2 ==> Join(" ", c) == c[0] + " " + c[1] by {
      if |c| == 2 {
        JoinPair(" ", c[0], c[1]);
        assert c == [c[0], c[1]];
      }
    }
    assert f.Many? && Filtering(f) ==> r == "(UNSEEN (" + Join(" OR ", FromClauses(f.senders)) + "))";
    assert f.Many? ==> forall k :: 0 <= k < |f.senders| ==> Contains(r, FromClause(f.senders[k])) by {
      if f.Many? && f.senders != [] {
        var body := Join(" OR ", FromClauses(f.senders));
        forall k | 0 <= k < |f.senders|
          ensures Contains(r, FromClause(f.senders[k]))
        {
          JoinContains(" OR ", FromClauses(f.senders), k);
          ContainsExtend("(UNSEEN (", body, "))", FromClause(f.senders[k]));
        }
      }
    }
    r
  }

  /** A further sender joins the list with ` OR `, leaving the earlier clauses as they were. */
  lemma AddSender(xs: seq<string>, y: string)
    requires xs != []
    ensures SearchQuery(Many(xs + [y])) == "(UNSEEN (" + (Join(" OR ", FromClauses(xs)) + " OR " + FromClause(y)) + "))"
  {
    assert FromClauses(xs + [y]) == FromClauses(xs) + [FromClause(y)];
    JoinAppend(" OR ", FromClauses(xs), FromClause(y));
  }

  /** What the server answers to one `fetch` of a message number from the search result. */
  datatype Fetch = Fetched(num: string, msg: Message) | FetchFailed(num: string)

  /** The server's answers for one session: the `select` status, the `search` status, and the fetches in result order. */
  datatype Session = Session(selectOk: bool, searchOk: bool, fetches: seq<Fetch>)

  /** The flag change stored for a message: `+FLAGS \Seen` or `-FLAGS \Seen`. */
  datatype Flag = Seen(num: string) | Unseen(num: string)
  {
    function Num(): string {
      match this
      case Seen(n) => n
      case Unseen(n) => n
    }
  }

  /** `parse` was reached for this entry and reported success. */
  predicate Parses(p: Provider, subject: string, sender: string, m: Message, num: string, outputDir: string, host: Host) {
    Matches(p, Some(subject), Some(sender)) && Parse(p, m, num, outputDir, host).ok
  }

  /** The outcome of offering one message to the parsers: who parsed it, and every file written on the way. */
  datatype Handled = Handled(parsedBy: Option<Provider>, written: seq<Artifact>)

  /** The files written while the parser loop runs: every `parse` reached, up to the first success, leaves its writes. */
  function Written(ps: seq<Provider>, subject: string, sender: string, m: Message, num: string, outputDir: string, host: Host): (r: seq<Artifact>)
    ensures (forall k :: 0 <= k < |ps| ==> !Matches(ps[k], Some(subject), Some(sender))) ==> r == []
    decreases |ps|
  {
    if ps == [] then []
    else
      assert forall k :: 1 <= k < |ps| ==> ps[k] == ps[1..][k - 1];
      if Matches(ps[0], Some(subject), Some(sender)) then
        var out := Parse(ps[0], m, num, outputDir, host);
        out.written + if out.ok then [] else Written(ps[1..], subject, sender, m, num, outputDir, host)
      else
        Written(ps[1..], subject, sender, m, num, outputDir, host)
  }

  /**
   * The parser loop for one message: matching entries are asked in order and
   * the first successful `parse` ends the loop; a failed `parse` moves on,
   * its partial writes staying behind.
   */
  function TryParsers(ps: seq<Provider>, subject: string, sender: string, m: Message, num: string, outputDir: string, host: Host): (r: Handled)
    ensures r.parsedBy.Some? <==> exists k :: 0 <= k < |ps| && Parses(ps[k], subject, sender, m, num, outputDir, host)
    ensures r.parsedBy.Some? ==> exists k :: && 0 <= k < |ps| && ps[k] == r.parsedBy.value
                                            && Parses(ps[k], subject, sender, m, num, outputDir, host)
                                            && forall j :: 0 <= j < k ==> !Parses(ps[j], subject, sender, m, num, outputDir, host)
    ensures (forall k :: 0 <= k < |ps| ==> !Matches(ps[k], Some(subject), Some(sender))) ==> r.written == []
  {
    var i := FirstWhere(ps, p => Parses(p, subject, sender, m, num, outputDir, host));
    Handled(if i < |ps| then Some(ps[i]) else None, Written(ps, subject, sender, m, num, outputDir, host))
  }

  /** The decoded Subject and From headers, "" when absent. */
  function SubjectOf(m: Message, host: Host): string {
    HeaderText(m.subject, host)
  }

  function SenderOf(m: Message, host: Host): string {
    HeaderText(m.sender, host)
  }

  /**
   * One fetched message offered to the registry: it is parsed when some entry
   * matching its decoded subject and sender parses it, by the first such
   * entry; a message no entry matches is left alone.
   */
  function Handle(num: string, m: Message, outputDir: string, host: Host): (r: Handled)
    ensures r.parsedBy.Some? <==> exists k :: 0 <= k < |Parsers| && Parses(Parsers[k], SubjectOf(m, host), SenderOf(m, host), m, num, outputDir, host)
    ensures r.parsedBy.Some? ==> Matches(r.parsedBy.value, Some(SubjectOf(m, host)), Some(SenderOf(m, host)))
    ensures FindMatchingParser(Some(SubjectOf(m, host)), Some(SenderOf(m, host))).None? ==> r == Handled(None, [])
  {
    TryParsers(Parsers, SubjectOf(m, host), SenderOf(m, host), m, num, outputDir, host)
  }

  /** Marked read exactly when some matching entry parsed it. */
  function Verdict(num: string, m: Message, outputDir: string, host: Host): (r: Flag)
    ensures r.Num() == num
    ensures r.Seen? <==> exists k :: 0 <= k < |Parsers| && Parses(Parsers[k], SubjectOf(m, host), SenderOf(m, host), m, num, outputDir, host)
  {
    if Handle(num, m, outputDir, host).parsedBy.Some? then Seen(num) else Unseen(num)
  }

  /** A message no entry matches is marked unread and leaves no file behind. */
  lemma UnmatchedStaysUnread(num: string, m: Message, outputDir: string, host: Host)
    requires FindMatchingParser(Some(SubjectOf(m, host)), Some(SenderOf(m, host))).None?
    ensures Verdict(num, m, outputDir, host) == Unseen(num)
    ensures Handle(num, m, outputDir, host).written == []
  {
  }

  /** The state of the fetch loop: flags stored and files written so far. */
  datatype Run = Run(ok: bool, query: Option<string>, flags: seq<Flag>, written: seq<Artifact>)

  /** The fetched messages, in order; a failed fetch is logged and skipped. */
  function Delivered(fetches: seq<Fetch>): (r: seq<Fetch>)
    ensures |r| <= |fetches|
    ensures forall k :: 0 <= k < |r| ==> r[k].Fetched? && r[k] in fetches
    ensures forall k :: 0 <= k < |fetches| && fetches[k].Fetched? ==> fetches[k] in r
    decreases |fetches|
  {
    if fetches == [] then []
    else
      var rest := Delivered(fetches[1..]);
      assert forall k :: 1 <= k < |fetches| ==> fetches[k] == fetches[1..][k - 1];
      if fetches[0].Fetched? then [fetches[0]] + rest else rest
  }

  /** Keeping the fetched messages commutes with splitting the answers: none is dropped or reordered. */
  lemma {:induction false} DeliveredAppend(a: seq<Fetch>, b: seq<Fetch>)
    ensures Delivered(a + b) == Delivered(a) + Delivered(b)
    decreases |a|
  {
    if a == [] {
      assert a + b == b;
    } else {
      assert (a + b)[0] == a[0];
      assert (a + b)[1..] == a[1..] + b;
      DeliveredAppend(a[1..], b);
    }
  }

  /** A single answer is delivered exactly when it is a fetched message. */
  lemma DeliveredOne(f: Fetch)
    ensures Delivered([f]) == if f.Fetched? then [f] else []
  {
    assert [f][1..] == [];
  }

  /** The files written for the fetched messages, message by message. */
  function WrittenFor(fetches: seq<Fetch>, outputDir: string, host: Host): seq<Artifact>
    decreases |fetches|
  {
    if fetches == [] then []
    else
      var here := match fetches[0]
        case Fetched(num, m) => Handle(num, m, outputDir, host).written
        case FetchFailed(_) => [];
      here + WrittenFor(fetches[1..], outputDir, host)
  }

  /** The per-message loop: one flag per fetched message, in order; the files of all messages accumulate. */
  function FetchLoop(fetches: seq<Fetch>, outputDir: string, host: Host): (r: (seq<Flag>, seq<Artifact>))
    ensures |r.0| == |Delivered(fetches)|
    ensures forall k :: 0 <= k < |r.0| ==>
              var f := Delivered(fetches)[k];
              r.0[k] == Verdict(f.num, f.msg, outputDir, host)
  {
    var d := Delivered(fetches);
    (seq(|d|, k requires 0 <= k < |d| => Verdict(d[k].num, d[k].msg, outputDir, host)), WrittenFor(fetches, outputDir, host))
  }

  /**
   * `process_emails`: a failed `select` or `search` ends the run with False
   * before any message is touched; otherwise every fetched message gets
   * exactly one flag, Seen when some matching entry parsed it.
   */
  function ProcessEmails(filter: SenderFilter, session: Session, outputDir: string, host: Host): (r: Run)
    ensures r.ok <==> session.selectOk && session.searchOk
    ensures r.query.Some? <==> session.selectOk
    ensures r.query.Some? ==> r.query.value == SearchQuery(filter)
    ensures !r.ok ==> r.flags == [] && r.written == []
    ensures r.ok ==> |r.flags| == |Delivered(session.fetches)|
    ensures r.ok ==> forall k :: 0 <= k < |r.flags| ==>
              var f := Delivered(session.fetches)[k];
              r.flags[k].Num() == f.num && (r.flags[k].Seen? <==> Handle(f.num, f.msg, outputDir, host).parsedBy.Some?)
  {
    if !session.selectOk then Run(false, None, [], [])
    else if !session.searchOk then Run(false, Some(SearchQuery(filter)), [], [])
    else
      var (flags, written) := FetchLoop(session.fetches, outputDir, host);
      Run(true, Some(SearchQuery(filter)), flags, written)
  }

  /** The extractor loop for one file: the attempts made, in order, and the entry that succeeded. */
  datatype Tried = Tried(attempts: seq<Extraction>, winner: Option<Provider>)

  /**
   * Entries are tried in order; not applicable and failed both move on to the
   * next entry, and the first success ends the loop.
   */
  function TryExtractors(ps: seq<Provider>, filepath: string, extractDir: string, passwordFile: Passwords.PasswordConfig, host: Host): (r: Tried)
    ensures |r.attempts| <= |ps|
    ensures forall k :: 0 <= k < |r.attempts| ==> r.attempts[k] == Extract(ps[k], filepath, extractDir, passwordFile, host)
    ensures r.winner.Some? <==> exists k :: 0 <= k < |ps| && Extract(ps[k], filepath, extractDir, passwordFile, host).Success()
    ensures r.winner.None? ==> |r.attempts| == |ps|
    ensures r.winner.Some? ==> && |r.attempts| >= 1
                               && ps[|r.attempts| - 1] == r.winner.value
                               && r.attempts[|r.attempts| - 1].Success()
                               && forall j :: 0 <= j < |r.attempts| - 1 ==> !r.attempts[j].Success()
  {
    var i := FirstWhere(ps, p => Extract(p, filepath, extractDir, passwordFile, host).Success());
    var n := if i < |ps| then i + 1 else |ps|;
    var attempts := seq(n, k requires 0 <= k < n => Extract(ps[k], filepath, extractDir, passwordFile, host));
    Tried(attempts, if i < |ps| then Some(ps[i]) else None)
  }

  /** What happened to one file of the staging directory. */
  datatype FileOutcome = FileOutcome(name: string, tried: Tried, removed: bool)

  /**
   * One file of the staging directory: the extractors run on
   * `join(output_dir, name)`, and after a success the file is deleted unless
   * it is to be kept; a failed delete is logged and the file stays.
   */
  function ExtractOne(name: string, outputDir: string, extractDir: string, passwordFile: Passwords.PasswordConfig, keep: bool, host: Host): (r: FileOutcome)
    ensures r.name == name
    ensures r.tried == TryExtractors(Parsers, PathJoin(outputDir, name), extractDir, passwordFile, host)
    ensures r.removed <==> r.tried.winner.Some? && !keep && host.canRemove(PathJoin(outputDir, name))
  {
    var filepath := PathJoin(outputDir, name);
    var t := TryExtractors(Parsers, filepath, extractDir, passwordFile, host);
    FileOutcome(name, t, t.winner.Some? && !keep && host.canRemove(filepath))
  }

  /** `run_extract`: every name of the directory listing handled on its own, in listing order. */
  function RunExtract(names: seq<string>, outputDir: string, extractDir: string, passwordFile: Passwords.PasswordConfig, keep: bool, host: Host): (r: seq<FileOutcome>)
    ensures |r| == |names|
    ensures forall k :: 0 <= k < |r| ==> r[k] == ExtractOne(names[k], outputDir, extractDir, passwordFile, keep, host)
    ensures keep ==> forall k :: 0 <= k < |r| ==> !r[k].removed
    ensures forall k :: 0 <= k < |r| ==> r[k].removed ==> r[k].tried.winner.Some?
  {
    seq(|names|, k requires 0 <= k < |names| => ExtractOne(names[k], outputDir, extractDir, passwordFile, keep, host))
  }

  /**
   * With an absolute staging directory, every path handed to the extractors
   * is absolute, so the alipay extractor, which tests the whole path for the
   * `alipay_` prefix, is never applicable and never wins.
   */
  lemma AlipayNeverApplies(names: seq<string>, outputDir: string, extractDir: string, passwordFile: Passwords.PasswordConfig, keep: bool, host: Host)
    requires IsAbs(outputDir)
    ensures forall o :: o in RunExtract(names, outputDir, extractDir, passwordFile, keep, host) ==>
              o.tried.attempts[0] == Skipped(NameMismatch) && o.tried.winner != Some(AlipayParser)
  {
    var r := RunExtract(names, outputDir, extractDir, passwordFile, keep, host);
    forall o | o in r
      ensures o.tried.attempts[0] == Skipped(NameMismatch) && o.tried.winner != Some(AlipayParser)
    {
      var k :| 0 <= k < |r| && r[k] == o;
      var path := PathJoin(outputDir, names[k]);
      Alipay.AbsolutePathSkipped(path, extractDir, passwordFile, host);
      var t := TryExtractors(Parsers, path, extractDir, passwordFile, host);
      assert Parsers[0] == AlipayParser;
      assert !Extract(Parsers[0], path, extractDir, passwordFile, host).Success();
      assert |t.attempts| >= 1;
    }
  }

  /**
   * `resolve_path`: an absolute path is kept as given; a relative one is
   * joined onto the base directory and made absolute and normal.
   */
  function ResolvePath(path: string, base: string, cwd: string): (r: string)
    ensures IsAbs(path) ==> r == path
    ensures IsAbs(cwd) ==> IsAbs(r)
    ensures IsAbs(base) && !IsAbs(path) ==> r == NormPath(PathJoin(base, path))
  {
    if IsAbs(path) then path else AbsPath(PathJoin(base, path), cwd)
  }
}

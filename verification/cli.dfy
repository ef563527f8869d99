/**
 * The command itself: the flag conflict check, reading the configuration,
 * the required IMAP settings, resolving the two directories against the
 * configuration file's directory, and running the selected stages.
 */
module Cli {
  import opened Wrappers
  import opened Text
  import opened Paths
  import opened Host
  import opened Extraction
  import opened Registry
  import opened Pipeline
  import Passwords

  /** A YAML value as `yaml.safe_load` returns it. */
  datatype Value =
    | Null
    | Bool(b: bool)
    | Int(i: int)
    | Real(x: real)
    | Str(s: string)
    | List(items: seq<Value>)
    | Dict(entries: map<string, Value>)

  /** Python truthiness. */
  predicate Truthy(v: Value) {
    match v
    case Null => false
    case Bool(b) => b
    case Int(i) => i != 0
    case Real(x) => x != 0.0
    case Str(s) => s != ""
    case List(items) => items != []
    case Dict(entries) => entries != map[]
  }

  type Config = map<string, Value>

  /** The settings needed to reach the mail server, in the order they are reported. */
  const Required: seq<string> := ["imap_server", "email_user", "email_pass"]

  /** A setting counts as missing when it is absent or falsy. */
  predicate Absent(config: Config, key: string) {
    key !in config || !Truthy(config[key])
  }

  /** `a` is `b` with some elements left out, the rest in the same order. */
  predicate Subsequence(a: seq<string>, b: seq<string>)
    decreases |b|
  {
    if a == [] then true
    else if b == [] then false
    else (a[0] == b[0] && Subsequence(a[1..], b[1..])) || Subsequence(a, b[1..])
  }

  /** The keys of `keys` that are missing, in the order of `keys`. */
  function Missing(keys: seq<string>, config: Config): (r: seq<string>)
    ensures forall x :: x in r <==> x in keys && Absent(config, x)
    ensures Subsequence(r, keys)
    decreases |keys|
  {
    if keys == [] then []
    else
      var rest := Missing(keys[1..], config);
      assert forall x :: x in keys <==> x == keys[0] || x in keys[1..];
      if Absent(config, keys[0]) then [keys[0]] + rest else rest
  }

  /** The list reported by the required-settings check. */
  function MissingParams(config: Config): (r: seq<string>)
    ensures forall x :: x in r <==> x in Required && Absent(config, x)
    ensures Subsequence(r, Required)
    ensures r == [] <==> forall k :: 0 <= k < |Required| ==> !Absent(config, Required[k])
  {
    Missing(Required, config)
  }

  /** The command-line flags. */
  datatype Args = Args(config: string, keep: bool, parseOnly: bool, extractOnly: bool)

  datatype Mode = ExtractOnly | ParseOnly | Full

  /** The stages the flags select; `-e` wins the `if`, and `-p -e` together never gets here. */
  function ModeOf(args: Args): (r: Mode)
    ensures r == ExtractOnly <==> args.extractOnly
    ensures r == ParseOnly <==> !args.extractOnly && args.parseOnly
    ensures r == Full <==> !args.extractOnly && !args.parseOnly
  {
    if args.extractOnly then ExtractOnly else if args.parseOnly then ParseOnly else Full
  }

  /** How a run of the command ends. */
  datatype Outcome =
    | Conflict                          // -p and -e together
    | ConfigUnreadable                  // opening or loading the configuration file raised
    | MissingSettings(params: seq<string>)
    | BadSetting(key: string)           // a setting whose type the model does not follow
    | Ran(mode: Mode, outputDir: string, extractDir: string, emails: Option<Run>, extracted: Option<seq<FileOutcome>>)

  /** `config.get(key, default)` for a text setting; None when it holds something other than text. */
  function TextSetting(config: Config, key: string, default: string): (r: Option<string>)
    ensures key !in config ==> r == Some(default)
    ensures key in config && config[key].Str? ==> r == Some(config[key].s)
    ensures r.None? <==> key in config && !config[key].Str?
  {
    if key !in config then Some(default)
    else match config[key]
      case Str(s) => Some(s)
      case _ => None
  }

  /**
   * `extra_params["password_file"]` as the extractors read it: a missing
   * `extra_params` defaults to an empty mapping, a falsy `password_file`
   * counts as unset, and an `extra_params` that is not a mapping or a
   * `password_file` that is not text makes the extractor's own read raise.
   */
  function PasswordSetting(config: Config): (r: Passwords.PasswordConfig)
    ensures "extra_params" !in config ==> r == Passwords.NotSet
    ensures "extra_params" in config && config["extra_params"].Dict? ==>
              var m := config["extra_params"].entries;
              && (Absent(m, "password_file") ==> r == Passwords.NotSet)
              && (!Absent(m, "password_file") && m["password_file"].Str? ==> r == Passwords.File(m["password_file"].s))
    ensures r == Passwords.BadEntry <==>
              && "extra_params" in config
              && (!config["extra_params"].Dict?
                  || (!Absent(config["extra_params"].entries, "password_file") && !config["extra_params"].entries["password_file"].Str?))
  {
    if "extra_params" !in config then Passwords.NotSet
    else match config["extra_params"]
      case Dict(m) =>
        if Absent(m, "password_file") then Passwords.NotSet
        else if m["password_file"].Str? then Passwords.File(m["password_file"].s)
        else Passwords.BadEntry
      case _ => Passwords.BadEntry
  }

  /** A text `password_file` names the file the extractors read, and a missing one reads as unset. */
  lemma PasswordFileNamed(config: Config, path: string, host: Host)
    requires "extra_params" in config && config["extra_params"].Dict?
    requires var m := config["extra_params"].entries; "password_file" in m && m["password_file"] == Str(path)
    ensures Passwords.Load(PasswordSetting(config), host).NoFile? <==> !host.pathExists(path) || path == ""
    ensures path != "" && host.pathExists(path) && host.readLines(path).Some? ==>
              Passwords.Load(PasswordSetting(config), host).Ready? || Passwords.Load(PasswordSetting(config), host).Empty?
  {
  }

  /** The texts of a list of values, or None when one of them is not text. */
  function Texts(items: seq<Value>): (r: Option<seq<string>>)
    ensures r.Some? <==> forall k :: 0 <= k < |items| ==> items[k].Str?
    ensures r.Some? ==> |r.value| == |items| && forall k :: 0 <= k < |items| ==> items[k] == Str(r.value[k])
    decreases |items|
  {
    if items == [] then Some([])
    else
      var rest := Texts(items[1..]);
      if items[0].Str? && rest.Some? then Some([items[0].s] + rest.value) else None
  }

  /** `sender_filter`: a falsy value filters nothing; a string or a list of strings filters by sender. */
  function SenderSetting(config: Config): (r: Option<SenderFilter>)
    ensures Absent(config, "sender_filter") ==> r == Some(NoFilter)
    ensures !Absent(config, "sender_filter") && config["sender_filter"].Str? ==> r == Some(Single(config["sender_filter"].s))
    ensures !Absent(config, "sender_filter") && config["sender_filter"].List? && Texts(config["sender_filter"].items).Some? ==>
              r == Some(Many(Texts(config["sender_filter"].items).value))
    ensures r.None? <==> !Absent(config, "sender_filter") && !config["sender_filter"].Str?
                         && !(config["sender_filter"].List? && Texts(config["sender_filter"].items).Some?)
    ensures r.Some? && r.value != NoFilter ==> Filtering(r.value)
    ensures r.Some? && r.value.Many? ==> config["sender_filter"] == List(seq(|r.value.senders|, k requires 0 <= k < |r.value.senders| => Str(r.value.senders[k])))
  {
    if Absent(config, "sender_filter") then Some(NoFilter)
    else match config["sender_filter"]
      case Str(s) => Some(Single(s))
      case List(items) =>
        (match Texts(items)
         case Some(xs) =>
           assert items == seq(|xs|, k requires 0 <= k < |xs| => Str(xs[k]));
           Some(Many(xs))
         case None => None)
      case _ => None
  }

  /** The settings a run works with once they are read and resolved. */
  datatype Settings = Settings(outputDir: string, extractDir: string, passwordFile: Passwords.PasswordConfig, filter: Option<SenderFilter>)

  datatype Read = Bad(key: string) | Good(settings: Settings)

  /**
   * The directories, `output` and `extract` by default, resolved against the
   * configuration file's directory; then the password file and the sender filter.
   */
  function ReadSettings(config: Config, configDir: string, cwd: string): (r: Read)
    ensures r.Good? <==> TextSetting(config, "output_dir", "output").Some? && TextSetting(config, "extract_dir", "extract").Some?
    ensures r.Bad? ==> r.key == (if TextSetting(config, "output_dir", "output").None? then "output_dir" else "extract_dir")
    ensures r.Good? ==> r.settings.outputDir == ResolvePath(TextSetting(config, "output_dir", "output").value, configDir, cwd)
    ensures r.Good? ==> r.settings.extractDir == ResolvePath(TextSetting(config, "extract_dir", "extract").value, configDir, cwd)
    ensures r.Good? && IsAbs(cwd) ==> IsAbs(r.settings.outputDir) && IsAbs(r.settings.extractDir)
    ensures r.Good? ==> r.settings.passwordFile == PasswordSetting(config) && r.settings.filter == SenderSetting(config)
  {
    match (TextSetting(config, "output_dir", "output"), TextSetting(config, "extract_dir", "extract"))
    case (None, _) => Bad("output_dir")
    case (_, None) => Bad("extract_dir")
    case (Some(o), Some(e)) =>
      Good(Settings(ResolvePath(o, configDir, cwd), ResolvePath(e, configDir, cwd), PasswordSetting(config), SenderSetting(config)))
  }

  /** The stages the mode selects; the full mode extracts only after a successful mail stage. */
  function RunStages(mode: Mode, s: Settings, keep: bool, session: Session, listing: seq<string>, host: Host): (r: Outcome)
    ensures r.Ran? || r == BadSetting("sender_filter")
    ensures r.BadSetting? <==> mode != ExtractOnly && s.filter.None?
    ensures r.Ran? ==> r.mode == mode && r.outputDir == s.outputDir && r.extractDir == s.extractDir
    ensures r.Ran? ==> (r.emails.Some? <==> mode != ExtractOnly)
    ensures r.Ran? ==> (r.extracted.Some? <==> mode == ExtractOnly || (mode == Full && r.emails.Some? && r.emails.value.ok))
    ensures r.Ran? && r.emails.Some? ==> r.emails.value == ProcessEmails(s.filter.value, session, s.outputDir, host)
    ensures r.Ran? && r.extracted.Some? ==> r.extracted.value == RunExtract(listing, s.outputDir, s.extractDir, s.passwordFile, keep, host)
    ensures r.Ran? && r.extracted.Some? ==> |r.extracted.value| == |listing|
    ensures r.Ran? && r.extracted.Some? && keep ==> forall o :: o in r.extracted.value ==> !o.removed
  {
    if mode == ExtractOnly then
      Ran(mode, s.outputDir, s.extractDir, None, Some(RunExtract(listing, s.outputDir, s.extractDir, s.passwordFile, keep, host)))
    else if s.filter.None? then BadSetting("sender_filter")
    else
      var run := ProcessEmails(s.filter.value, session, s.outputDir, host);
      var extracted := if mode == Full && run.ok then Some(RunExtract(listing, s.outputDir, s.extractDir, s.passwordFile, keep, host)) else None;
      Ran(mode, s.outputDir, s.extractDir, Some(run), extracted)
  }

  /**
   * `main` once the configuration is loaded: the IMAP settings are checked
   * unless only extraction runs, then the settings are read and the stages run.
   */
  function Configured(args: Args, config: Config, configDir: string, session: Session, listing: seq<string>, host: Host): (r: Outcome)
    requires !(args.parseOnly && args.extractOnly)
    ensures r.MissingSettings? <==> !args.extractOnly && MissingParams(config) != []
    ensures r.MissingSettings? ==> r.params != [] && forall x :: x in r.params <==> x in Required && Absent(config, x)
    ensures r.Ran? ==> && ReadSettings(config, configDir, host.cwd).Good?
                       && r == RunStages(ModeOf(args), ReadSettings(config, configDir, host.cwd).settings, args.keep, session, listing, host)
    ensures r.Ran? || r.MissingSettings? || r.BadSetting?
  {
    if !args.extractOnly && MissingParams(config) != [] then MissingSettings(MissingParams(config))
    else match ReadSettings(config, configDir, host.cwd)
      case Bad(key) => BadSetting(key)
      case Good(s) => RunStages(ModeOf(args), s, args.keep, session, listing, host)
  }

  /**
   * `main`: the flag conflict is reported before the configuration is read;
   * the IMAP settings are checked unless only extraction runs; the two
   * directories are resolved against the configuration file's directory; the
   * full mode extracts only after a successful mail stage.
   */
  function RunMain(args: Args, configLoad: Option<Config>, session: Session, listing: seq<string>, host: Host): (r: Outcome)
    ensures args.parseOnly && args.extractOnly ==> r == Conflict
    ensures r.MissingSettings? ==> && !args.extractOnly && r.params != [] && configLoad.Some?
                                   && forall x :: x in r.params <==> x in Required && Absent(configLoad.value, x)
    ensures r.Ran? ==> && !(args.parseOnly && args.extractOnly) && configLoad.Some? && r.mode == ModeOf(args)
                       && (r.emails.Some? <==> !args.extractOnly)
                       && (r.extracted.Some? <==> args.extractOnly || (!args.parseOnly && r.emails.Some? && r.emails.value.ok))
    ensures r.Ran? && IsAbs(host.cwd) ==> IsAbs(r.outputDir) && IsAbs(r.extractDir)
    ensures r.Ran? && r.extracted.Some? ==> |r.extracted.value| == |listing|
    ensures r.Ran? && r.extracted.Some? && args.keep ==> forall o :: o in r.extracted.value ==> !o.removed
    ensures && !(args.parseOnly && args.extractOnly) && configLoad.Some?
            && (args.extractOnly || MissingParams(configLoad.value) == [])
            && TextSetting(configLoad.value, "output_dir", "output").Some?
            && TextSetting(configLoad.value, "extract_dir", "extract").Some?
            && (args.extractOnly || SenderSetting(configLoad.value).Some?)
            ==> r.Ran?
  {
    if args.parseOnly && args.extractOnly then Conflict
    else
      match configLoad
      case None => ConfigUnreadable
      case Some(config) => Configured(args, config, Dirname(AbsPath(args.config, host.cwd)), session, listing, host)
  }

  /** The configuration file's directory is absolute, so both resolved directories are. */
  lemma ConfigDirAbsolute(config: string, cwd: string)
    requires IsAbs(cwd)
    ensures IsAbs(Dirname(AbsPath(config, cwd)))
  {
  }

  /**
   * From the command, alipay archives are never extracted: the staging
   * directory is resolved to an absolute path, and the alipay extractor tests
   * the whole path for its prefix.
   */
  lemma NoAlipayExtraction(args: Args, configLoad: Option<Config>, session: Session, listing: seq<string>, host: Host)
    requires IsAbs(host.cwd)
    ensures var r := RunMain(args, configLoad, session, listing, host);
            r.Ran? && r.extracted.Some? ==> forall o :: o in r.extracted.value ==> o.tried.winner != Some(AlipayParser)
  {
    var r := RunMain(args, configLoad, session, listing, host);
    if r.Ran? && r.extracted.Some? {
      var configDir := Dirname(AbsPath(args.config, host.cwd));
      assert r == Configured(args, configLoad.value, configDir, session, listing, host);
      var s := ReadSettings(configLoad.value, configDir, host.cwd).settings;
      assert r == RunStages(ModeOf(args), s, args.keep, session, listing, host);
      AlipayNeverApplies(listing, s.outputDir, s.extractDir, s.passwordFile, args.keep, host);
    }
  }
}

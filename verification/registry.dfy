/**
 * The parser registry: the three providers in their fixed order, each with a
 * display name and the `match`, `parse` and `extract` operations of its module,
 * and the two lookups over that order.
 */
module Registry {
  import opened Wrappers
  import opened Text
  import opened Paths
  import opened Host
  import opened Mail
  import opened Extraction
  import Passwords
  import Alipay
  import Cmbcc
  import Wechat

  datatype Provider = AlipayParser | CmbccParser | WechatParser

  /** `PARSERS`, in the order every loop over it follows. */
  const Parsers: seq<Provider> := [AlipayParser, CmbccParser, WechatParser]

  /** The `name` field of a registry entry. */
  function Name(p: Provider): string {
    match p
    case AlipayParser => "支付宝"
    case CmbccParser => "招商银行信用卡"
    case WechatParser => "微信支付"
  }

  /** The entry's `match(subject, sender)`. */
  predicate Matches(p: Provider, subject: Option<string>, sender: Option<string>) {
    match p
    case AlipayParser => Alipay.Match(subject, sender)
    case CmbccParser => Cmbcc.Match(subject, sender)
    case WechatParser => Wechat.Match(subject, sender)
  }

  /** The entry's `parse(msg, msg_id, output_dir)`. */
  function Parse(p: Provider, m: Message, msgId: string, outputDir: string, host: Host): Parsed {
    match p
    case AlipayParser => Alipay.Parse(m, outputDir, host)
    case CmbccParser => Cmbcc.Parse(m, msgId, outputDir, host)
    case WechatParser => Wechat.Parse(m, msgId, outputDir, host)
  }

  /** The entry's `extract(filename, extract_dir, config)`, `config` reduced to its `password_file`. */
  function Extract(p: Provider, filename: string, extractDir: string, passwordFile: Passwords.PasswordConfig, host: Host): Extraction {
    match p
    case AlipayParser => Alipay.Extract(filename, extractDir, passwordFile, host)
    case CmbccParser => Cmbcc.Extract(filename, extractDir, host)
    case WechatParser => Wechat.Extract(filename, extractDir, passwordFile, host)
  }

  /** The index of the first element satisfying `f`, or `|xs|` when none does: a `for ... return` scan. */
  function FirstWhere<T>(xs: seq<T>, f: T -> bool): (i: nat)
    ensures i <= |xs|
    ensures i < |xs| ==> f(xs[i])
    ensures forall j :: 0 <= j < i ==> !f(xs[j])
    decreases |xs|
  {
    if xs == [] then 0
    else if f(xs[0]) then 0
    else 1 + FirstWhere(xs[1..], f)
  }

  /** `find_matching_parser`: the first entry, in registry order, whose `match` holds. */
  function FindMatchingParser(subject: Option<string>, sender: Option<string>): (r: Option<Provider>)
    ensures r.None? <==> forall k :: 0 <= k < |Parsers| ==> !Matches(Parsers[k], subject, sender)
    ensures r.Some? ==> exists k :: && 0 <= k < |Parsers| && Parsers[k] == r.value
                                    && Matches(r.value, subject, sender)
                                    && forall j :: 0 <= j < k ==> !Matches(Parsers[j], subject, sender)
  {
    var i := FirstWhere(Parsers, p => Matches(p, subject, sender));
    if i < |Parsers| then Some(Parsers[i]) else None
  }

  /** A mail naming both 支付宝 and another provider goes to alipay, the first entry. */
  lemma AlipayTakesPrecedence(subject: Option<string>, sender: Option<string>)
    requires Alipay.Match(subject, sender)
    ensures FindMatchingParser(subject, sender) == Some(AlipayParser)
  {
    assert Matches(Parsers[0], subject, sender);
  }

  /** A mail whose subject or sender is exactly an entry's name matches that entry. */
  lemma NameMatches(p: Provider, other: Option<string>)
    ensures Matches(p, Some(Name(p)), other)
    ensures Matches(p, other, Some(Name(p)))
  {
    assert Contains(Name(p), Name(p));
  }

  /** `get_parser_by_name`: the first entry with this exact name. */
  function GetParserByName(name: string): (r: Option<Provider>)
    ensures r.Some? ==> Name(r.value) == name
    ensures r.None? <==> forall k :: 0 <= k < |Parsers| ==> Name(Parsers[k]) != name
  {
    var i := FirstWhere(Parsers, p => Name(p) == name);
    if i < |Parsers| then Some(Parsers[i]) else None
  }

  /** Names identify entries: looking an entry up by its own name gives it back. */
  lemma NameRoundTrip(p: Provider)
    ensures GetParserByName(Name(p)) == Some(p)
  {
    var f := (q: Provider) => Name(q) == Name(p);
    var i := FirstWhere(Parsers, f);
    assert Name(AlipayParser) != Name(CmbccParser) && Name(AlipayParser) != Name(WechatParser) && Name(CmbccParser) != Name(WechatParser) by {
      assert Name(AlipayParser)[0] != Name(CmbccParser)[0];
      assert Name(AlipayParser)[0] != Name(WechatParser)[0];
      assert Name(CmbccParser)[0] != Name(WechatParser)[0];
    }
    match p
    case AlipayParser => assert f(Parsers[0]);
    case CmbccParser => assert f(Parsers[1]);
    case WechatParser => assert f(Parsers[2]);
  }

  /** Every provider has an entry in the registry. */
  lemma Listed(p: Provider)
    ensures p in Parsers
  {
    match p
    case AlipayParser => assert Parsers[0] == p;
    case CmbccParser => assert Parsers[1] == p;
    case WechatParser => assert Parsers[2] == p;
  }

  /** `get_all_parsers`: every provider, once each, in registry order. */
  function GetAllParsers(): (r: seq<Provider>)
    ensures |r| == 3
    ensures Name(r[0]) == "支付宝" && Name(r[1]) == "招商银行信用卡" && Name(r[2]) == "微信支付"
    ensures forall p: Provider :: p in r
    ensures forall i, j :: 0 <= i < j < |r| ==> r[i] != r[j]
  {
    assert forall p: Provider :: p in Parsers by {
      forall p: Provider
        ensures p in Parsers
      {
        Listed(p);
      }
    }
    Parsers
  }

  /** A file ending in `.dat` is not applicable to any extractor. */
  lemma DatNeverApplicable(p: Provider, filename: string, extractDir: string, passwordFile: Passwords.PasswordConfig, host: Host)
    requires EndsWith(filename, ".dat")
    ensures Extract(p, filename, extractDir, passwordFile, host) == Skipped(NameMismatch)
  {
    assert filename[|filename| - 1] == 't';
    assert !EndsWith(filename, ".zip") && !EndsWith(filename, ".html");
    assert EndsWith(Basename(filename), ".zip") ==> EndsWith(filename, ".zip") by {
      if EndsWith(Basename(filename), ".zip") {
        BasenameSuffix(filename, ".zip");
      }
    }
    assert EndsWith(Basename(filename), ".html") ==> EndsWith(filename, ".html") by {
      if EndsWith(Basename(filename), ".html") {
        BasenameSuffix(filename, ".html");
      }
    }
  }

  /**
   * The fallback wechat download, `wechat_wechat_<id>.dat`, is left in the
   * staging directory by every extractor.
   */
  lemma FallbackDownloadStays(p: Provider, outputDir: string, msgId: string, extractDir: string, passwordFile: Passwords.PasswordConfig, host: Host)
    ensures Extract(p, PathJoin(outputDir, "wechat_wechat_" + msgId + ".dat"), extractDir, passwordFile, host) == Skipped(NameMismatch)
  {
    var name := "wechat_wechat_" + msgId + ".dat";
    assert EndsWith(name, ".dat") by {
      assert name[|name| - 4..] == ".dat";
    }
    var path := PathJoin(outputDir, name);
    assert path[|path| - 4..] == name[|name| - 4..];
    DatNeverApplicable(p, path, extractDir, passwordFile, host);
  }
}

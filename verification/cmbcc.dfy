/**
 * The cmbcc provider: mails mentioning 招商银行信用卡 carry the bill as their
 * HTML body, saved as `cmbcc_<id>.html`; the extractor turns its transaction
 * rows into `cmbcc_<YYYY_MM>.csv`.
 */
module Cmbcc {
  import opened Wrappers
  import opened Text
  import opened Paths
  import opened Host
  import opened Mail
  import opened Extraction

  const Keyword: string := "招商银行信用卡"
  const Prefix: string := "cmbcc_"
  const Suffix: string := ".html"

  /** The fixed first row of every CSV file the extractor writes. */
  const Header: seq<string> := ["交易日", "记账日", "交易摘要", "人民币金额", "卡号末四位", "交易地金额", "交易地"]

  /** The number of fields of every row written. */
  const Width: nat := 7

  /** The keyword occurs in the subject or in the sender, an absent header reading as "". */
  predicate Match(subject: Option<string>, sender: Option<string>) {
    Contains(OrEmpty(subject), Keyword) || Contains(OrEmpty(sender), Keyword)
  }

  /** The `in` tests read as "the keyword occurs somewhere"; a missing header reads as empty and never matches. */
  lemma MatchIff(subject: Option<string>, sender: Option<string>)
    ensures Match(subject, sender) <==> (exists i :: OccursAt(OrEmpty(subject), Keyword, i)) || (exists i :: OccursAt(OrEmpty(sender), Keyword, i))
    ensures !Match(None, None)
  {
    ContainsIff(OrEmpty(subject), Keyword);
    ContainsIff(OrEmpty(sender), Keyword);
    assert !Contains("", Keyword);
  }

  /** The staged file name for a message: `cmbcc_<id>.html`. */
  function StagedName(msgId: string): string {
    Prefix + msgId + Suffix
  }

  /**
   * `parse`: the HTML body is saved as `cmbcc_<id>.html`; without one, or when
   * the file cannot be written, nothing is written and the result is a failure.
   */
  function Parse(m: Message, msgId: string, outputDir: string, host: Host): (r: Parsed)
    ensures r.ok <==> !NoUsableBody(HtmlBody(m, host)) && host.canWrite(PathJoin(outputDir, StagedName(msgId)))
    ensures !r.ok ==> r.written == []
    ensures r.ok ==> r.written == [Artifact(PathJoin(outputDir, StagedName(msgId)), Utf8(HtmlBody(m, host).text))]
  {
    var body := HtmlBody(m, host);
    var path := PathJoin(outputDir, StagedName(msgId));
    if NoUsableBody(body) || !host.canWrite(path) then Parsed(false, [])
    else Parsed(true, [Artifact(path, Utf8(body.text))])
  }

  /** The applicability test, made on the basename of the path. */
  predicate Applicable(filename: string) {
    StartsWith(Basename(filename), Prefix) && EndsWith(Basename(filename), Suffix)
  }

  /** The basenames accepted are exactly `cmbcc_`, anything, `.html`. */
  lemma ApplicableIff(filename: string)
    ensures Applicable(filename) <==> exists mid :: Basename(filename) == Prefix + mid + Suffix
  {
    assert Suffix[0] !in Prefix;
    Framed(Basename(filename), Prefix, Suffix);
  }

  /** What `parse` stages is what `extract` accepts, for a message id without a slash. */
  lemma StagedIsApplicable(outputDir: string, msgId: string)
    requires '/' !in msgId
    ensures Applicable(PathJoin(outputDir, StagedName(msgId)))
  {
    var name := StagedName(msgId);
    var tail := msgId + Suffix;
    assert name == Prefix + tail;
    assert '/' !in Suffix && '/' !in Prefix;
    assert '/' !in tail;
    assert '/' !in name;
    BasenameOfJoin(outputDir, name);
    StartsWithAppend(Prefix, tail);
    assert EndsWith(tail, Suffix) by {
      assert tail[|tail| - |Suffix|..] == Suffix;
    }
    EndsWithAppend(Prefix, tail, Suffix);
  }

  /**
   * The text of one cell: line feeds become spaces and carriage returns go;
   * a cell showing a ¥ amount loses every ¥ and `&nbsp;` and is stripped again.
   */
  function CleanCell(t: string): (r: string)
    ensures '\n' !in r && '\r' !in r
    ensures '¥' in t ==> '¥' !in r && Stripped(r)
    ensures '¥' !in t ==> r == Without(MapChar(t, '\n', ' '), '\r')
    ensures '¥' in t ==> r == Strip(ReplaceAll(Without(Without(MapChar(t, '\n', ' '), '\r'), '¥'), "&nbsp;", ""))
  {
    var u := ReplaceAll(ReplaceAll(t, "\n", " "), "\r", "");
    ReplaceAllChars(t, "\n", " ");
    ReplaceAllChars(ReplaceAll(t, "\n", " "), "\r", "");
    if '¥' in u then
      var v := ReplaceAll(ReplaceAll(u, "¥", ""), "&nbsp;", "");
      assert ReplaceAll(u, "¥", "") == Without(u, '¥');
      ReplaceAllChars(u, "¥", "");
      ReplaceAllChars(ReplaceAll(u, "¥", ""), "&nbsp;", "");
      StripResult(v);
      StripKeepsChars(v);
      Strip(v)
    else
      u
  }

  /** An empty cell stays empty. */
  lemma CleanEmpty()
    ensures CleanCell("") == ""
  {
    assert ReplaceAll("", "\n", " ") == "";
  }

  /** Cells 1 to 7 of a row as they stand, "" where the row is shorter. */
  function RawFields(cells: seq<string>): (r: seq<string>)
    ensures |r| == Width
    ensures forall k :: 0 <= k < Width ==> r[k] == if k + 1 < |cells| then cells[k + 1] else ""
  {
    seq(Width, i requires 0 <= i < Width => if i + 1 < |cells| then cells[i + 1] else "")
  }

  /** Every cell cleaned, in place. */
  function CleanAll(xs: seq<string>): (r: seq<string>)
    ensures |r| == |xs|
    ensures forall k :: 0 <= k < |xs| ==> r[k] == CleanCell(xs[k])
  {
    seq(|xs|, i requires 0 <= i < |xs| => CleanCell(xs[i]))
  }

  /**
   * The row rule: fewer than seven cells, no row; otherwise the seven fields
   * are the cleaned cells 1 to 7 (cell 0 is the empty leading cell), with ""
   * for a missing cell 7, and the row is kept only if some field is non-empty.
   */
  function ShapeRow(cells: seq<string>): (r: Option<seq<string>>)
    ensures |cells| < Width ==> r.None?
    ensures r.Some? ==> |r.value| == Width
    ensures r.Some? ==> forall k :: 1 <= k <= Width && k < |cells| ==> r.value[k - 1] == CleanCell(cells[k])
    ensures r.Some? && |cells| == Width ==> r.value[Width - 1] == ""
    ensures |cells| >= Width ==> (r.Some? <==> exists k :: 1 <= k <= Width && k < |cells| && CleanCell(cells[k]) != "")
  {
    if |cells| < Width then None
    else
      var raw := RawFields(cells);
      var data := CleanAll(raw);
      assert |cells| == Width ==> data[Width - 1] == "" by {
        CleanEmpty();
      }
      assert forall k :: 1 <= k <= Width && k < |cells| ==> data[k - 1] == CleanCell(cells[k]) by {
        forall k | 1 <= k <= Width && k < |cells|
          ensures data[k - 1] == CleanCell(cells[k])
        {
          assert raw[k - 1] == cells[k];
        }
      }
      assert (exists i :: 0 <= i < Width && data[i] != "") <==> exists k :: 1 <= k <= Width && k < |cells| && CleanCell(cells[k]) != "" by {
        if exists i :: 0 <= i < Width && data[i] != "" {
          var i :| 0 <= i < Width && data[i] != "";
          CleanEmpty();
          assert 1 <= i + 1 <= Width && i + 1 < |cells| && CleanCell(cells[i + 1]) != "";
        }
      }
      if exists i :: 0 <= i < Width && data[i] != "" then Some(data) else None
  }

  /** The rows written after the header, in document order. */
  function ShapeRows(rows: seq<seq<string>>): (r: seq<seq<string>>)
    ensures |r| <= |rows|
    ensures forall k :: 0 <= k < |r| ==> |r[k]| == Width
    decreases |rows|
  {
    if rows == [] then []
    else
      var rest := ShapeRows(rows[1..]);
      match ShapeRow(rows[0])
      case Some(d) => [d] + rest
      case None => rest
  }

  /** Shaping commutes with splitting the row list: each row is kept or dropped on its own. */
  lemma {:induction false} ShapeRowsAppend(a: seq<seq<string>>, b: seq<seq<string>>)
    ensures ShapeRows(a + b) == ShapeRows(a) + ShapeRows(b)
    decreases |a|
  {
    if a == [] {
      assert a + b == b;
    } else {
      assert (a + b)[0] == a[0];
      assert (a + b)[1..] == a[1..] + b;
      ShapeRowsAppend(a[1..], b);
    }
  }

  /** One row yields its shaped fields when the row rule keeps it, and nothing otherwise. */
  lemma ShapeRowsOne(row: seq<string>)
    ensures ShapeRows([row]) == if ShapeRow(row).Some? then [ShapeRow(row).value] else []
  {
    assert [row][1..] == [];
  }

  /** The CSV content: the header first, always, then the shaped rows. */
  function CsvRows(rows: seq<seq<string>>): (r: seq<seq<string>>)
    ensures |r| >= 1 && r[0] == Header
    ensures |r| <= |rows| + 1
    ensures forall k :: 1 <= k < |r| ==> |r[k]| == Width
    ensures (forall k :: 0 <= k < |rows| ==> ShapeRow(rows[k]).None?) ==> r == [Header]
    ensures r == [Header] + ShapeRows(rows)
  {
    assert (forall k :: 0 <= k < |rows| ==> ShapeRow(rows[k]).None?) ==> ShapeRows(rows) == [] by {
      NoShapedRows(rows);
    }
    [Header] + ShapeRows(rows)
  }

  /** When no row passes the row rule, nothing follows the header. */
  lemma {:induction false} NoShapedRows(rows: seq<seq<string>>)
    ensures (forall k :: 0 <= k < |rows| ==> ShapeRow(rows[k]).None?) ==> ShapeRows(rows) == []
    decreases |rows|
  {
    if rows != [] && forall k :: 0 <= k < |rows| ==> ShapeRow(rows[k]).None? {
      assert ShapeRow(rows[0]).None?;
      assert forall k :: 0 <= k < |rows| - 1 ==> rows[1..][k] == rows[k + 1];
      NoShapedRows(rows[1..]);
    }
  }

  predicate IsDigit(c: char) {
    '0' <= c <= '9'
  }

  predicate Digits(m: string) {
    forall k :: 0 <= k < |m| ==> IsDigit(m[k])
  }

  /** `\d{1,2}月` at `j`, greedy: two digits when a 月 follows them, else one. */
  function MonthAt(s: string, j: nat): (r: Option<string>)
    ensures r.Some? ==> && (|r.value| == 1 || |r.value| == 2) && j + |r.value| < |s|
                        && r.value == s[j..j + |r.value|] && s[j + |r.value|] == '月' && Digits(r.value)
    ensures r.None? <==> !(j + 1 < |s| && IsDigit(s[j]) && (s[j + 1] == '月' || (j + 2 < |s| && IsDigit(s[j + 1]) && s[j + 2] == '月')))
  {
    if j + 2 < |s| && IsDigit(s[j]) && IsDigit(s[j + 1]) && s[j + 2] == '月' then Some(s[j..j + 2])
    else if j + 1 < |s| && IsDigit(s[j]) && s[j + 1] == '月' then Some(s[j..j + 1])
    else None
  }

  /** Four digits at `i`. */
  predicate YearAt(s: string, i: nat) {
    i + 4 <= |s| && Digits(s[i..i + 4])
  }

  /** `(\d{4})年(\d{1,2})月` at `i`: the month found, if the pattern matches there. */
  function StrictAt(s: string, i: nat): Option<string> {
    if YearAt(s, i) && i + 4 < |s| && s[i + 4] == '年' then MonthAt(s, i + 5) else None
  }

  /** `.*?(\d{1,2})月` from `j`: the lazy gap grows one character at a time and never crosses a line feed. */
  function LazyMonth(s: string, j: nat): (r: Option<string>)
    ensures r.Some? ==> exists g :: && j <= g < |s| && MonthAt(s, g) == r
                                    && (forall k :: j <= k < g ==> s[k] != '\n')
                                    && forall k :: j <= k < g ==> MonthAt(s, k).None?
    decreases |s| - j
  {
    match MonthAt(s, j)
    case Some(m) => Some(m)
    case None =>
      if j < |s| && s[j] != '\n' then LazyMonth(s, j + 1) else None
  }

  /**
   * The converse: a month reachable from `j` without crossing a line feed is
   * found, and when no month comes before it, it is the one found.
   */
  lemma {:induction false} LazyMonthFinds(s: string, j: nat, g: nat)
    requires j <= g && MonthAt(s, g).Some?
    requires forall k :: j <= k < g ==> s[k] != '\n'
    ensures LazyMonth(s, j).Some?
    ensures (forall k :: j <= k < g ==> MonthAt(s, k).None?) ==> LazyMonth(s, j) == MonthAt(s, g)
    decreases g - j
  {
    if j < g && MonthAt(s, j).None? {
      assert j < |s| && s[j] != '\n';
      LazyMonthFinds(s, j + 1, g);
    }
  }

  /** `(\d{4}).*?(\d{1,2})月` at `i`. */
  function LooseAt(s: string, i: nat): Option<string> {
    if YearAt(s, i) then LazyMonth(s, i + 4) else None
  }

  /** The pattern tried by `re.search`: the strict one or the loose one. */
  function MatchAt(s: string, i: nat, strict: bool): Option<string> {
    if strict then StrictAt(s, i) else LooseAt(s, i)
  }

  /** `re.search`: the leftmost offset at or after `i` where the pattern matches, or `|s| + 1`. */
  function Leftmost(s: string, i: nat, strict: bool): (j: nat)
    requires i <= |s| + 1
    ensures i <= j <= |s| + 1
    ensures j <= |s| ==> MatchAt(s, j, strict).Some?
    ensures forall k :: i <= k < j && k <= |s| ==> MatchAt(s, k, strict).None?
    decreases |s| + 1 - i
  {
    if i > |s| then i
    else if MatchAt(s, i, strict).Some? then i
    else Leftmost(s, i + 1, strict)
  }

  /** A match at `j` with none before it is the one `re.search` reports. */
  lemma {:induction false} LeftmostIs(s: string, i: nat, j: nat, strict: bool)
    requires i <= j <= |s|
    requires MatchAt(s, j, strict).Some?
    requires forall k :: i <= k < j ==> MatchAt(s, k, strict).None?
    ensures Leftmost(s, i, strict) == j
    decreases j - i
  {
    if i < j {
      assert MatchAt(s, i, strict).None?;
      LeftmostIs(s, i + 1, j, strict);
    }
  }

  /** `month.zfill(2)` for a one- or two-digit month. */
  function Pad2(m: string): (r: string)
    requires |m| == 1 || |m| == 2
    ensures |r| == 2 && r[2 - |m|..] == m
    ensures |m| == 1 ==> r[0] == '0'
    ensures Digits(m) ==> Digits(r)
  {
    if |m| == 1 then "0" + m else m
  }

  /** The shape of a year-month stamp: four digits, `_`, two digits. */
  predicate IsStamp(r: string) {
    |r| == 7 && r[4] == '_' && Digits(r[..4]) && Digits(r[5..])
  }

  /** `f"{year}_{month}"` from a match at `i`. */
  function Stamp(s: string, i: nat, month: string): (r: string)
    requires YearAt(s, i) && (|month| == 1 || |month| == 2) && Digits(month)
    ensures IsStamp(r) && r[..4] == s[i..i + 4] && r[5..] == Pad2(month)
  {
    var r := s[i..i + 4] + "_" + Pad2(month);
    assert r[..4] == s[i..i + 4] && r[5..] == Pad2(month);
    r
  }

  /**
   * `year_month`: the first strict `YYYY年M月` match if there is one, else the
   * first loose `YYYY...M月` match, else `unknown`; the month is padded to two digits.
   */
  function YearMonth(s: string): (r: string)
    ensures r == "unknown" || IsStamp(r)
  {
    var i := Leftmost(s, 0, true);
    if i <= |s| then
      Stamp(s, i, StrictAt(s, i).value)
    else
      var j := Leftmost(s, 0, false);
      if j <= |s| then
        Stamp(s, j, LooseAt(s, j).value)
      else
        "unknown"
  }

  /** The leftmost strict match decides the stamp. */
  lemma StrictDecides(s: string, i: nat)
    requires i <= |s| && StrictAt(s, i).Some?
    requires forall k :: 0 <= k < i ==> StrictAt(s, k).None?
    ensures YearAt(s, i)
    ensures YearMonth(s) == Stamp(s, i, StrictAt(s, i).value)
  {
    LeftmostIs(s, 0, i, true);
  }

  /** With no strict match anywhere, the leftmost loose match decides the stamp. */
  lemma LooseDecides(s: string, i: nat)
    requires forall k :: 0 <= k <= |s| ==> StrictAt(s, k).None?
    requires i <= |s| && LooseAt(s, i).Some?
    requires forall k :: 0 <= k < i ==> LooseAt(s, k).None?
    ensures YearAt(s, i)
    ensures YearMonth(s) == Stamp(s, i, LooseAt(s, i).value)
  {
    assert Leftmost(s, 0, true) == |s| + 1 by {
      var j := Leftmost(s, 0, true);
      assert MatchAt(s, j, true) == StrictAt(s, j);
    }
    LeftmostIs(s, 0, i, false);
  }

  /** A stamp is never the word `unknown`. */
  lemma StampNotUnknown(r: string)
    requires IsStamp(r)
    ensures r != "unknown"
  {
    assert "unknown"[4] != '_';
  }

  /** `unknown` exactly when neither pattern matches anywhere. */
  lemma UnknownIff(s: string)
    ensures YearMonth(s) == "unknown" <==> forall i :: 0 <= i <= |s| ==> StrictAt(s, i).None? && LooseAt(s, i).None?
  {
    var i := Leftmost(s, 0, true);
    var j := Leftmost(s, 0, false);
    if i <= |s| {
      assert MatchAt(s, i, true) == StrictAt(s, i);
      StampNotUnknown(YearMonth(s));
    } else if j <= |s| {
      assert MatchAt(s, j, false) == LooseAt(s, j);
      StampNotUnknown(YearMonth(s));
    } else {
      forall k | 0 <= k <= |s|
        ensures StrictAt(s, k).None? && LooseAt(s, k).None?
      {
        assert MatchAt(s, k, true) == StrictAt(s, k);
        assert MatchAt(s, k, false) == LooseAt(s, k);
      }
    }
  }

  /** A strict match is a loose match too, so the loose pattern only ever decides when no strict one exists. */
  lemma StrictIsLoose(s: string, i: nat)
    requires StrictAt(s, i).Some?
    ensures LooseAt(s, i).Some?
  {
    assert MonthAt(s, i + 4).None?;
    assert LazyMonth(s, i + 5) == MonthAt(s, i + 5);
    assert LazyMonth(s, i + 4) == LazyMonth(s, i + 5);
  }

  /** The CSV file name for a bill. */
  function CsvName(yearMonth: string): (r: string)
    ensures |r| == |Prefix| + |yearMonth| + 4
    ensures r[..|Prefix|] == Prefix && r[|Prefix|..|r| - 4] == yearMonth && r[|r| - 4..] == ".csv"
    ensures IsStamp(yearMonth) || yearMonth == "unknown" ==> '/' !in r
  {
    var r := Prefix + yearMonth + ".csv";
    assert r[..|Prefix|] == Prefix && r[|Prefix|..|r| - 4] == yearMonth && r[|r| - 4..] == ".csv";
    assert IsStamp(yearMonth) ==> '/' !in yearMonth by {
      if IsStamp(yearMonth) {
        forall k | 0 <= k < 7 ensures yearMonth[k] != '/' {
          if k < 4 { assert yearMonth[..4][k] == yearMonth[k]; }
          else if k > 4 { assert yearMonth[5..][k - 5] == yearMonth[k]; }
        }
      }
    }
    r
  }

  /**
   * `extract`: skip unless the basename is a `cmbcc_*.html`; every error after
   * that, an unreadable bill or a failed write, is reported as not applicable
   * too; otherwise the table goes to `cmbcc_<YYYY_MM>.csv`.
   */
  function Extract(filename: string, extractDir: string, host: Host): (r: Extraction)
    ensures !Applicable(filename) ==> r == Skipped(NameMismatch)
    ensures Applicable(filename) && host.readText(filename).None? ==> r == Skipped(Unreadable)
    ensures !r.Failed?
    ensures Applicable(filename) && host.readText(filename).Some? ==>
              var target := PathJoin(extractDir, CsvName(YearMonth(host.readText(filename).value)));
              && (r.Done? <==> host.canWrite(target))
              && (!host.canWrite(target) ==> r == Skipped(Unexpected))
    ensures r.Done? ==> && host.readText(filename).Some?
                        && var html := host.readText(filename).value;
                        && r.outputs == [Table(PathJoin(extractDir, CsvName(YearMonth(html))), CsvRows(host.transactionCells(html)))]
                        && r.tried == []
  {
    if !Applicable(filename) then Skipped(NameMismatch)
    else match host.readText(filename)
      case None => Skipped(Unreadable)
      case Some(html) =>
        var target := PathJoin(extractDir, CsvName(YearMonth(html)));
        if host.canWrite(target) then Done([], [Table(target, CsvRows(host.transactionCells(html)))])
        else Skipped(Unexpected)
  }
}

# bill-fetcher, modelled in Dafny

bill-fetcher collects bills that arrive by e-mail. It runs in two stages:

1. **Mail stage.** It searches an IMAP mailbox for unread mail, optionally from
   given senders. Each message goes to a registry of three providers:
   - 支付宝 (alipay): zip attachments;
   - 招商银行信用卡 (cmbcc): the HTML body of the mail;
   - 微信支付 (wechat): a zip downloaded from a link in the mail.

   The first provider whose `match` accepts the subject or sender and whose
   `parse` succeeds stages the bill into the output directory, and the message
   is marked read. Every other message is marked unread.
2. **Extract stage.** Every file of the output directory is offered to the
   extractors in registry order until one of them succeeds; an extractor that
   does not apply, or applies and fails, passes the file on. The two zip
   providers try the passwords of a password file, last line first, and move
   the unpacked files into the extract directory under their prefix. The cmbcc extractor turns the HTML
   bill into a `cmbcc_<YYYY_MM>.csv` table. A file that was extracted is
   deleted unless `--keep` is given.

The model is functional. Anything that touches the outside world is a
field of the `Host.Host` record or a parameter. That covers:
- files, zip and `7z` runs, HTTP, charset and header decoding;
- the HTML queries on the page: the download link and the cells of the transaction table;
- the IMAP server's answers (`Pipeline.Session`);
- the configuration file as loaded (`Cli.RunMain`'s `configLoad`);
- the staging directory's listing.

Modules, in dependency order:
- `Wrappers`, `Text`, `Paths`: Python `str` and POSIX `os.path` operations.
- `Host`, `Mail`, `Extraction`: the outside world, messages, and extraction outcomes.
- `Passwords`: the shared password search.
- `Alipay`, `Cmbcc`, `Wechat`: the providers.
- `Registry`: the registry.
- `Pipeline`: `process_emails`, `run_extract` and `resolve_path`.
- `Cli`: `main`.

The extractors return `(applicable, success)` in the source. The model uses
`Extraction`: `Skipped(why)` is `(False, False)`, `Failed(why, tried)` is
`(True, False)` and `Done(tried, outputs)` is `(True, True)`. The `why` and
`tried` fields record which of the source's exits was taken.

Behaviours of the code that the model keeps, some of them surprising:
- `run_extract` (main.py:162-168) moves on to the next extractor both when
  one is not applicable and when one is applicable but fails; only a success
  ends the loop (main.py:170-179).
- Messages that matched a provider whose `parse` failed are marked unread
  (main.py:145-146), the same as messages that matched none.
- The alipay extractor tests the prefix on the whole path it is given
  (parsers/parser_alipay.py:28), not on its basename. `main` always passes an
  absolute path, so an alipay zip is never extracted when the command runs
  (`Pipeline.AlipayNeverApplies`, `Cli.NoAlipayExtraction`).
- Alipay attachments are saved under the filename the message part reports,
  without any further decoding (parsers/parser_alipay.py:14-16).
- `extra_params` is read only by the extractors, inside their own error
  handling. A malformed `extra_params` or `password_file` therefore makes an
  applicable zip extractor fail; it does not stop the command
  (`Passwords.PasswordConfig.BadEntry`).
- In the alipay extractor only a bad zip or a wrong password moves on to the
  next password. Any other error ends the search with a failure
  (parsers/parser_alipay.py:70-80). In the wechat extractor every error moves
  on (parsers/parser_wechat.py:127-132).

## Model

| member | source | states |
|---|---|---|
| Text.ContainsIff | parsers/parser_alipay.py:8 | the `in` test used by every `match` holds exactly when the text occurs at some offset |
| Text.Framed | parsers/parser_wechat.py:77 | a name starts with a prefix and ends with a suffix exactly when it is the prefix, something, and the suffix |
| Text.SpacesFromSpec | parsers/parser_alipay.py:40 | the leading run `strip()` removes is all whitespace and cannot be extended |
| Text.SpacesBeforeSpec | parsers/parser_alipay.py:40 | the trailing run `strip()` removes is all whitespace and cannot be extended |
| Text.StripSpec | parsers/parser_alipay.py:40 | `strip()` returns a contiguous run of its input; everything before and after that run is whitespace |
| Text.StripResult | parsers/parser_alipay.py:40 | a stripped line has no whitespace at either end, and it is empty exactly when the line was all whitespace |
| Text.StrippedFixed | parsers/parser_alipay.py:40 | stripping a line that has nothing to strip gives it back, so `strip` is idempotent |
| Text.StripKeepsChars | parsers/parser_cmbcc.py:89 | `strip()` brings in no character that was not in its input |
| Text.ReplaceAll | parsers/parser_cmbcc.py:86-89 | replacing one character by one character maps it everywhere and keeps the length; replacing one character by nothing removes exactly its occurrences; text without the pattern is unchanged |
| Text.ReplaceAllChars | parsers/parser_cmbcc.py:86-89 | `replace` adds only characters of the replacement and keeps every character that is not part of the pattern |
| Text.JoinAppend | main.py:100 | joining one more item adds the separator and that item at the end |
| Text.JoinContains | main.py:100 | every item of a join occurs in the joined text |
| Text.Reverse | parsers/parser_alipay.py:47 | `reverse()` puts position `i` at position `n-1-i` |
| Text.ReverseSnoc | parsers/parser_alipay.py:47 | an item appended at the end comes first after reversal |
| Paths.PathJoin | main.py:157 | an absolute second part replaces the directory; otherwise the name is appended, after a `/` only when the directory is non-empty and does not already end in one |
| Paths.DirnameOfJoin | main.py:157 | the directory of a slash-free name joined onto a directory without a trailing slash is that directory |
| Paths.Basename | parsers/parser_wechat.py:76 | the basename is the slash-free tail after the last slash |
| Paths.BasenameOfJoin | parsers/parser_wechat.py:76 | the basename of a slash-free name joined onto any directory is that name |
| Paths.BasenameSuffix | parsers/parser_cmbcc.py:58-59 | whatever the basename ends with, the whole path ends with too |
| Paths.Dirname | main.py:216 | the directory is a prefix of the path, and absolute when the path is |
| Paths.Split | main.py:33 | splitting on a character and joining back with it gives the text back, and no piece holds the character |
| Paths.SplitJoin | main.py:33 | joining slash-free pieces with `/` and splitting again gives the pieces back |
| Paths.Collapse | main.py:33 | `normpath` keeps only non-empty components other than `.`, and never a `..` in an absolute path |
| Paths.CollapseNormal | main.py:33 | components that are already kept and contain no `..` pass through `normpath` unchanged |
| Paths.ParentCancels | main.py:33 | a kept component followed by `..` cancels out |
| Paths.NormPath | main.py:33 | `normpath` never returns "" and keeps a path absolute exactly when it was |
| Paths.NormalPathFixed | main.py:33 | `normpath` leaves an absolute path that is already normal as it is |
| Paths.AbsPath | main.py:216 | `abspath` normalises an absolute path and normalises the join of the working directory with a relative one; the result is absolute when the working directory is |
| Mail.FirstHtml | parsers/parser_cmbcc.py:16-22 | the part chosen is `text/html` and no earlier part of the walk is |
| Mail.HtmlBody | parsers/parser_cmbcc.py:14-28 | no HTML body exactly when no part (or the single part) is `text/html`; otherwise the body is the decoding of the first `text/html` part of the walk |
| Mail.HeaderText | main.py:36-39 | an absent or empty header decodes to ""; any other is handed to the header decoder |
| Passwords.NonBlankClean | parsers/parser_alipay.py:40 | every line kept is non-empty and has nothing left to strip |
| Passwords.NothingKept | parsers/parser_alipay.py:40 | the comprehension is empty exactly when no line contributes a candidate |
| Passwords.NonBlankEmpty | parsers/parser_alipay.py:40-44 | the "no passwords" exit is taken exactly when every line of the file strips to nothing |
| Passwords.NonBlankAppend | parsers/parser_alipay.py:40 | keeping the non-blank lines distributes over concatenating files |
| Passwords.LineCandidate | parsers/parser_alipay.py:40 | a line contributes nothing exactly when it strips to "", and otherwise its stripped text |
| Passwords.NonBlankOne | parsers/parser_alipay.py:40 | a file of one line keeps exactly that line's candidate; with `NonBlankAppend`, the candidates of a file are those of its lines in order |
| Passwords.Candidates | parsers/parser_alipay.py:40-47 | candidates are non-empty stripped lines, no more of them than lines |
| Passwords.LastLineFirst | parsers/parser_alipay.py:40-47 | a non-blank line appended to the file becomes the first candidate; a blank one changes nothing |
| Passwords.CleanFileReversed | parsers/parser_alipay.py:40-47 | for a file of clean lines the trial order is exactly the reverse of the file order |
| Passwords.ThreeLineOrder | parsers/parser_wechat.py:94-102 | password lines `p1, p2, p3` are tried as `p3, p2, p1` |
| Passwords.Load | parsers/parser_alipay.py:33-44 | "no file" exactly when the setting is unset or names no existing path; a read error exactly when the setting is malformed or the existing file cannot be read; a readable file gives "empty" or the ready list of its candidates |
| Passwords.SearchFrom | parsers/parser_alipay.py:50-72 | a found password is the first that unpacked, all before it missed; exhaustion exactly when every candidate missed; an abort is a crash under the stop-on-crash policy |
| Passwords.SearchStopsAt | parsers/parser_alipay.py:50-72 | the search stops at the first candidate that does not miss: found with its files when it unpacked, aborted otherwise |
| Passwords.FirstCandidateWins | parsers/parser_alipay.py:51-68 | when the first candidate unpacks, the search ends there, whatever the other passwords would do |
| Passwords.Relocate | parsers/parser_alipay.py:59-66 | file `k` moves to the prefix plus its own basename, joined onto the extract directory, whatever subdirectory it came from; when the directory has no trailing slash, the target sits directly in it |
| Passwords.Conclude | parsers/parser_alipay.py:68-76 | a win is a success over the prefix of candidates tried that moves exactly the unpacked files; exhaustion fails having tried every candidate; a crash fails having tried up to it |
| Passwords.Trial | parsers/parser_wechat.py:105-136 | success names the first candidate that unpacked after misses and moves its files; exhaustion means every candidate missed; an unexpected failure is a crash at the last candidate tried, after misses, under the stop-on-crash policy |
| Passwords.TrialWins | parsers/parser_wechat.py:105-126 | when candidate `n` unpacks after only misses, the trial succeeds having tried the first `n+1` candidates and moves that candidate's files |
| Alipay.Attachments | parsers/parser_alipay.py:13-15 | only parts with a non-empty filename count, in walk order |
| Alipay.MatchIff | parsers/parser_alipay.py:7-8 | a mail matches exactly when 支付宝 occurs in its subject or sender; with neither header it does not match |
| Alipay.AttachmentsAppend | parsers/parser_alipay.py:13-15 | the attachments of a walk split in two are those of the halves, in order |
| Alipay.AttachmentsOne | parsers/parser_alipay.py:14-15 | a single part is an attachment exactly when it has a non-empty filename |
| Alipay.FirstUnsaved | parsers/parser_alipay.py:13-21 | the walk breaks at the first attachment that has no payload or cannot be written, every earlier one being saved |
| Alipay.SaveAll | parsers/parser_alipay.py:13-23 | attachments are saved in order as `alipay_<filename>` holding their payload; the first without a payload or that cannot be written ends the walk with failure, earlier files staying |
| Alipay.Parse | parsers/parser_alipay.py:11-23 | success, with nothing written, when the mail has no attachment; success exactly when every attachment has a payload and can be written; file `k` is attachment `k` under the prefix |
| Alipay.Unlock | parsers/parser_alipay.py:50-72 | success names the first candidate that opened the zip after wrong passwords only, and moves its files; exhaustion means every candidate was rejected; any other failure is a crash at the last candidate tried |
| Alipay.Extract | parsers/parser_alipay.py:26-80 | applicable exactly when the path starts with `alipay_` and ends with `.zip`; the missing-file, read-error and empty-list exits; an archive that does not open fails; otherwise the outcome of the password search, with the files moved |
| Alipay.ApplicableIff | parsers/parser_alipay.py:28 | the paths accepted are exactly `alipay_`, anything, `.zip` |
| Alipay.ExtractWins | parsers/parser_alipay.py:50-68 | when the archive opens and candidate `n` unpacks it after only wrong passwords, the extraction succeeds with it and moves its files |
| Alipay.AbsolutePathSkipped | parsers/parser_alipay.py:28-29 | no absolute path is ever applicable |
| Wechat.QuoteFreeRun | parsers/parser_wechat.py:54 | the `[^"]+` run is quote-free, is a slice of the header, and stops only at a quote or the end |
| Wechat.QuoteFreeRunIs | parsers/parser_wechat.py:54 | any quote-free stretch ended by a quote or the end is the run found there |
| Wechat.ParamAt | parsers/parser_wechat.py:53-55 | a match at an offset starts with `filename=` and yields the non-empty quote-free run after the optional quote |
| Wechat.FirstParamAt | parsers/parser_wechat.py:53-56 | the search stops at a match with no match before it |
| Wechat.FirstParamAtIs | parsers/parser_wechat.py:53-56 | a match with none before it is the one the search returns |
| Wechat.FilenameParam | parsers/parser_wechat.py:53-56 | a filename is found exactly when some offset matches, and it is non-empty and quote-free |
| Wechat.QuotedFilename | parsers/parser_wechat.py:53-57 | a quoted `filename="name"` yields exactly `name` |
| Wechat.UnquotedFilename | parsers/parser_wechat.py:53-57 | an unquoted filename runs to the next quote or the end of the header |
| Wechat.DownloadName | parsers/parser_wechat.py:50-60 | the saved name is never empty: the unquoted header filename when there is one, else `wechat_<id>.dat` |
| Wechat.Download | parsers/parser_wechat.py:32-48 | a download happens exactly when there is an HTML body with a link whose first target answers 200 |
| Wechat.Parse | parsers/parser_wechat.py:14-71 | success exactly when the download succeeds and the file can be written; then exactly one file, `wechat_<name>`, holding the response body; nothing written otherwise |
| Wechat.MatchIff | parsers/parser_wechat.py:10-11 | a mail matches exactly when 微信支付 occurs in its sender or subject; with neither header it does not match |
| Wechat.FallbackDoublePrefix | parsers/parser_wechat.py:59-62 | without a usable filename the file is saved as `wechat_wechat_<id>.dat` |
| Wechat.StagedIsApplicable | parsers/parser_wechat.py:76-77 | a download saved under a slash-free `.zip` name is one the extractor accepts |
| Wechat.Unlock | parsers/parser_wechat.py:105-136 | success names the first password whose `7z` run succeeded, and moves its files; a failure always means no password worked, every run having failed |
| Wechat.Extract | parsers/parser_wechat.py:74-140 | applicable exactly on a `wechat_*.zip` basename; "tool missing" exactly when `7z` is absent; an unexpected failure exactly on a password-file read error; the other configuration exits; the outcome of the password search, with the files moved |
| Wechat.ApplicableIff | parsers/parser_wechat.py:76-77 | the basenames accepted are exactly `wechat_`, anything, `.zip` |
| Wechat.ExtractWins | parsers/parser_wechat.py:105-126 | with `7z` present, when candidate `n` runs cleanly after only failed runs, the extraction succeeds with it and moves its files |
| Cmbcc.Parse | parsers/parser_cmbcc.py:12-43 | success exactly when there is a usable HTML body and the file can be written, saved as `cmbcc_<id>.html`; nothing written otherwise |
| Cmbcc.MatchIff | parsers/parser_cmbcc.py:8-9 | a mail matches exactly when 招商银行信用卡 occurs in its subject or sender; with neither header it does not match |
| Cmbcc.ApplicableIff | parsers/parser_cmbcc.py:58-59 | the basenames accepted are exactly `cmbcc_`, anything, `.html` |
| Cmbcc.StagedIsApplicable | parsers/parser_cmbcc.py:58-59 | the file `parse` stages for a slash-free id is one `extract` accepts |
| Cmbcc.CleanCell | parsers/parser_cmbcc.py:86-89 | line feeds become spaces and carriage returns go; a ¥ amount then loses every ¥ and every `&nbsp;` and is stripped |
| Cmbcc.RawFields | parsers/parser_cmbcc.py:84-92 | exactly seven fields: cell `k+1`, or "" where the row is shorter |
| Cmbcc.ShapeRow | parsers/parser_cmbcc.py:81-96 | fewer than seven cells give no row; a row has seven fields, the cleaned cells 1 to 7, "" for a missing seventh; kept exactly when some cleaned cell is non-empty |
| Cmbcc.ShapeRows | parsers/parser_cmbcc.py:77-96 | at most one row per table row, each seven fields wide |
| Cmbcc.ShapeRowsAppend | parsers/parser_cmbcc.py:77-96 | the rows written for a list of table rows split in two are those of the halves, in order |
| Cmbcc.ShapeRowsOne | parsers/parser_cmbcc.py:78-96 | one table row yields its shaped fields when the row rule keeps it and nothing otherwise |
| Cmbcc.CsvRows | parsers/parser_cmbcc.py:68-96 | the header comes first, always, followed by the shaped rows; just the header when no row qualifies |
| Cmbcc.NoShapedRows | parsers/parser_cmbcc.py:94-96 | when no table row qualifies, nothing follows the header |
| Cmbcc.MonthAt | parsers/parser_cmbcc.py:102 | `\d{1,2}月` matches exactly when one or two digits are followed by 月, and takes two digits when it can |
| Cmbcc.LazyMonth | parsers/parser_cmbcc.py:111 | a month found by the lazy gap is the nearest month after a stretch without a line feed |
| Cmbcc.LazyMonthFinds | parsers/parser_cmbcc.py:111 | a month reachable without crossing a line feed is found, and it is the one found when no month comes before it |
| Cmbcc.Leftmost | parsers/parser_cmbcc.py:103 | `re.search` returns a matching offset with no match before it, or reports none |
| Cmbcc.LeftmostIs | parsers/parser_cmbcc.py:103 | a match with none before it is the one `re.search` returns |
| Cmbcc.Pad2 | parsers/parser_cmbcc.py:107 | `zfill(2)` gives two digits and keeps the month as its tail |
| Cmbcc.Stamp | parsers/parser_cmbcc.py:106-108 | the stamp is the four-digit year, `_`, and the padded month |
| Cmbcc.YearMonth | parsers/parser_cmbcc.py:98-116 | the result is `unknown` or a `YYYY_MM` stamp |
| Cmbcc.StrictDecides | parsers/parser_cmbcc.py:102-108 | the leftmost `YYYY年M月` decides the stamp |
| Cmbcc.LooseDecides | parsers/parser_cmbcc.py:110-116 | with no `YYYY年M月` anywhere, the leftmost loose match decides the stamp |
| Cmbcc.UnknownIff | parsers/parser_cmbcc.py:99-116 | `unknown` exactly when neither pattern matches anywhere |
| Cmbcc.StrictIsLoose | parsers/parser_cmbcc.py:102-111 | every strict match is a loose match at the same offset |
| Cmbcc.CsvName | parsers/parser_cmbcc.py:118-119 | the file name is `cmbcc_`, the stamp, `.csv`; a stamp or `unknown` never puts a slash in it |
| Cmbcc.Extract | parsers/parser_cmbcc.py:46-132 | not applicable unless the basename is `cmbcc_*.html`; an unreadable file is reported as not applicable; a readable one succeeds exactly when the CSV file can be written, and otherwise is reported as not applicable; never "applicable but failed"; a success writes the table to `cmbcc_<stamp>.csv` |
| Registry.FirstWhere | parsers/__init__.py:38-41 | the scan returns the first index that satisfies the test, or the length when none does |
| Registry.FindMatchingParser | parsers/__init__.py:47-52 | no parser exactly when no entry matches; otherwise the first matching entry in registry order |
| Registry.AlipayTakesPrecedence | parsers/__init__.py:15-21 | a mail that alipay matches goes to alipay, whatever else it matches |
| Registry.NameMatches | parsers/__init__.py:15-34 | a subject or sender that is exactly an entry's name matches that entry |
| Registry.GetParserByName | parsers/__init__.py:36-41 | the entry found has the name asked for; none exactly when no entry has it |
| Registry.NameRoundTrip | parsers/__init__.py:36-41 | looking an entry up by its own name gives it back |
| Registry.GetAllParsers | parsers/__init__.py:15-45 | three entries, 支付宝, 招商银行信用卡 and 微信支付 in that order; every provider listed, each once |
| Registry.DatNeverApplicable | main.py:158-163 | no extractor applies to a file ending in `.dat` |
| Registry.FallbackDownloadStays | parsers/parser_wechat.py:59-62 | the fallback download `wechat_wechat_<id>.dat` is skipped by every extractor |
| Pipeline.FromClauses | main.py:97-99 | one `FROM "<sender>"` clause per sender, in order |
| Pipeline.Criteria | main.py:90-103 | `UNSEEN` always comes first, alone exactly when no filter is set |
| Pipeline.SearchQuery | main.py:89-106 | unread only without a filter; one `FROM` for a single sender; `OR`-joined clauses in a group for a list, every sender occurring in the query |
| Pipeline.AddSender | main.py:95-100 | another sender is appended with ` OR `, the earlier clauses unchanged |
| Pipeline.Written | main.py:132-144 | a message no entry matches leaves no file |
| Pipeline.TryParsers | main.py:132-147 | parsed exactly when some entry matches and parses; then by the first such entry; no files when nothing matches |
| Pipeline.Handle | main.py:125-147 | a message is parsed exactly when some entry matching its decoded subject and sender parses it, by a matching entry; a message no entry matches writes nothing |
| Pipeline.Verdict | main.py:133-147 | exactly one flag per message, and it is "read" exactly when some matching entry parsed it |
| Pipeline.UnmatchedStaysUnread | main.py:145-147 | a message no parser matches is marked unread and leaves no file |
| Pipeline.Delivered | main.py:117-121 | exactly the messages fetched successfully |
| Pipeline.DeliveredAppend | main.py:117-121 | the messages delivered from answers split in two are those of the halves, in order |
| Pipeline.DeliveredOne | main.py:118-121 | one answer is delivered exactly when it is a fetched message |
| Pipeline.FetchLoop | main.py:117-147 | one flag per delivered message, in order, each that message's verdict |
| Pipeline.ProcessEmails | main.py:66-151 | success exactly when select and search succeed; no flags or files otherwise; one flag per delivered message, "read" exactly when parsed |
| Pipeline.TryExtractors | main.py:158-179 | extractors are tried in order up to the first success; a winner exactly when some extractor succeeds, and no earlier attempt succeeded |
| Pipeline.ExtractOne | main.py:156-179 | the file is removed exactly when an extractor succeeded, it is not kept, and the removal succeeded |
| Pipeline.RunExtract | main.py:154-179 | one outcome per listed file; nothing removed with `keep`; only extracted files removed |
| Pipeline.AlipayNeverApplies | main.py:156-163 | with an absolute output directory the alipay extractor is skipped for every file and never wins |
| Pipeline.ResolvePath | main.py:29-33 | an absolute path is kept; a relative path is resolved against the base, and the result is absolute |
| Cli.Missing | main.py:227-229 | the missing settings are exactly the absent or falsy ones, in the checked order |
| Cli.MissingParams | main.py:222-234 | the missing list is empty exactly when all three IMAP settings are set |
| Cli.ModeOf | main.py:246-258 | extract-only exactly when `-e` is given; parse-only when only `-p` is; full mode when neither is |
| Cli.TextSetting | main.py:236-237 | an absent setting takes its default; a text setting is used as it is; any other value is rejected |
| Cli.PasswordSetting | main.py:238 | unset when `extra_params` is absent or its `password_file` is absent or falsy; a text `password_file` names the file; a non-mapping `extra_params` or a non-text `password_file` is malformed |
| Cli.PasswordFileNamed | parsers/parser_wechat.py:88-99 | a text `password_file` names the file the extractors look for, and an existing readable one gives a ready or empty password list |
| Cli.Texts | main.py:95-99 | a list of values reads as texts exactly when every value is text, item by item |
| Cli.SenderSetting | main.py:93-103 | a falsy `sender_filter` filters nothing; a text one filters by that sender; a list of texts filters by exactly those senders; anything else is rejected |
| Cli.ReadSettings | main.py:236-238 | accepted exactly when both directory settings are text or absent; both directories are resolved against the configuration file's directory, and are absolute when the working directory is |
| Cli.RunStages | main.py:246-258 | extract-only extracts only; parse-only fetches only; full mode extracts only after a successful mail stage; with `keep` nothing is removed |
| Cli.Configured | main.py:222-258 | settings are reported missing exactly when the mail stage will run and some are missing |
| Cli.RunMain | main.py:182-258 | `-p` and `-e` together stop the command first; the stages follow the flags; missing settings are reported only when the mail stage would run; a loaded configuration with the needed settings well formed always runs; the resolved directories are absolute when the working directory is |
| Cli.ConfigDirAbsolute | main.py:216 | the configuration file's directory is absolute |
| Cli.NoAlipayExtraction | main.py:216-249 | from the command, no file is ever extracted by the alipay extractor |

## Left out

- IMAP connection, login, `mailbox` selection, `close`/`logout` and `store`: the server's answers are the `Session` parameter, and storing a flag is assumed to succeed.
- MIME parsing, charset decoding and RFC 2047 header decoding: `Host.decode` and `Host.decodeHeader` stand in for them. The walk order of a message is given.
- The HTML queries (the 点击下载 link regular expression and BeautifulSoup's transaction rows and cells): `Host.downloadLinks` and `Host.transactionCells` stand in for them. The cells are the `get_text(strip=True)` texts.
- `requests.get`, `unquote`, zip opening, zip extraction and `7z` runs: oracle fields of `Host`. Temporary directories are not modelled. An attempt reports the files it unpacked.
- `shutil.move`: moving the unpacked files is assumed to succeed. In the source, a failed move fails the alipay extraction and moves on to the next password in wechat.
- Writing the CSV: the `Output.Table` rows are what would be written. CSV quoting is not modelled.
- `os.makedirs`, logging and `print`.
- The staging directory listing is a parameter. The files the mail stage writes are not fed back into it.
- Cmbcc.MonthAt: `\d` is taken as the ASCII digits; Python also accepts other Unicode decimal digits.
- Alipay.SaveAll: an attachment without a payload also leaves an empty file in the source, because the file is opened before the write fails. The model records only files written in full.
- Cli.RunMain: some configuration shapes make the source raise or format values loosely. The model reports `BadSetting` for:
  - a non-text `output_dir` or `extract_dir`, where `os.path.isabs` raises;
  - a truthy `sender_filter` that is neither text nor a list of text, which the source formats into the query as it is.
- Cli.PasswordSetting: a non-zero integer or `true` as `password_file` is a file descriptor to `os.path.exists` and `open`; the model treats it as a malformed entry, so the extractor fails instead of reading from that descriptor.
- Cli.RunMain: a configuration file that cannot be opened, or whose top level is not a mapping, is `ConfigUnreadable`.
- `decode_mime_header`'s fallback to the raw header on a decoding error is inside `Host.decodeHeader`.

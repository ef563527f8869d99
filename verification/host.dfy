/**
 * The outside world as the parsers and the pipeline see it. Every effect the
 * program has on, or question it asks of, the file system, the network, the
 * `7z` executable and the third-party libraries is a field of `Host`, so the
 * decision logic can be stated as pure functions of it.
 */
module Host {
  import opened Wrappers

  type Bytes = seq<bv8>

  /** One password trial against an archive, extracted into a fresh temporary directory. */
  datatype Attempt =
    | Unpacked(files: seq<string>)   // it worked; the paths of the files found by walking the temporary tree
    | Refused                        // the wrong-password outcome: BadZipFile/RuntimeError, or a non-zero 7z exit
    | Crashed                        // any other exception raised during the trial

  /** The part of an HTTP response the wechat parser reads. */
  datatype Response = Response(status: int, disposition: Option<string>, content: Bytes)

  datatype Host = Host(
    cwd: string,                                 // os.getcwd()
    pathExists: string -> bool,                  // os.path.exists
    readLines: string -> Option<seq<string>>,    // open(...).readlines(); None when it raises
    readText: string -> Option<string>,          // open(...).read(); None when it raises
    zipOpens: string -> bool,                    // zipfile.ZipFile(path) succeeds
    zipTry: (string, string) -> Attempt,         // extractall of an archive with a password
    sevenZip: Option<string>,                    // shutil.which("7z")
    sevenZipTry: (string, string) -> Attempt,    // one `7z x ... -p<password>` run on an archive
    canWrite: string -> bool,                    // writing a file at this path succeeds
    canRemove: string -> bool,                   // os.remove(path) succeeds
    decode: (Bytes, string) -> Option<string>,   // bytes.decode(charset, errors="ignore"); None for an unknown charset
    downloadLinks: string -> seq<string>,        // hrefs of the anchors labelled 点击下载, in document order
    httpGet: string -> Option<Response>,         // requests.get(url, timeout=15); None when it raises
    unquote: string -> string,                   // urllib.parse.unquote
    decodeHeader: string -> string,              // RFC 2047 decoding of a non-empty header value
    transactionCells: string -> seq<seq<string>> // per transaction row of a cmbcc bill, the stripped text of each inner cell
  )
}

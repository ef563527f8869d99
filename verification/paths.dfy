/**
 * The POSIX flavour of Python's `os.path` functions the pipeline uses:
 * `isabs`, `join` (two arguments), `basename`, `dirname`, `normpath` and
 * `abspath`, with the working directory passed in explicitly.
 */
module Paths {
  import opened Text

  /** `os.path.isabs(p)`: a path is absolute when it starts with a slash. */
  predicate IsAbs(p: string) {
    StartsWith(p, "/")
  }

  /** A name without any slash is a relative path. */
  lemma SlashFreeIsRelative(name: string)
    requires '/' !in name
    ensures !IsAbs(name)
  {
    if |name| > 0 {
      assert name[0] in name;
    }
  }

  /**
   * `os.path.join(a, b)`: an absolute `b` replaces `a`; otherwise exactly one
   * slash separates the two, none being added when `a` is empty or already
   * ends with one.
   */
  function PathJoin(a: string, b: string): (r: string)
    ensures IsAbs(b) ==> r == b
    ensures IsAbs(a) ==> IsAbs(r)
    ensures !IsAbs(b) ==> StartsWith(r, a)
    ensures EndsWith(r, b)
    ensures !IsAbs(b) && (a == "" || EndsWith(a, "/")) ==> r == a + b
    ensures !IsAbs(b) && a != "" && !EndsWith(a, "/") ==> r == a + "/" + b
  {
    assert a != "" ==> (EndsWith(a, "/") <==> a[|a| - 1] == '/') by {
      if a != "" {
        assert a[|a| - 1..] == [a[|a| - 1]];
      }
    }
    if IsAbs(b) then b
    else if a == "" || a[|a| - 1] == '/' then a + b
    else a + "/" + b
  }

  /** `p.rfind('/') + 1`: where the last path component starts. */
  function ComponentStart(p: string): (i: nat)
    ensures i <= |p|
    ensures forall k :: i <= k < |p| ==> p[k] != '/'
    ensures i == 0 || p[i - 1] == '/'
    decreases |p|
  {
    if p == [] then 0
    else if p[|p| - 1] == '/' then |p|
    else ComponentStart(p[..|p| - 1])
  }

  /** `os.path.basename(p)`: the text after the last slash. */
  function Basename(p: string): (r: string)
    ensures '/' !in r
    ensures |r| <= |p| && p == p[..|p| - |r|] + r
    ensures |r| == |p| || p[|p| - |r| - 1] == '/'
  {
    p[ComponentStart(p)..]
  }

  /** Joining a slash-free name onto any directory gives back that name as the basename. */
  lemma BasenameOfJoin(dir: string, name: string)
    requires '/' !in name
    ensures Basename(PathJoin(dir, name)) == name
  {
    var j := PathJoin(dir, name);
    var m := |j| - |name|;
    assert j[m..] == name;
    assert m == 0 || j[m - 1] == '/';
    forall k | m <= k < |j|
      ensures j[k] != '/'
    {
      assert j[k] == name[k - m];
    }
    assert ComponentStart(j) == m;
  }

  /** The basename is a suffix of the path, so whatever it ends with, the path ends with too. */
  lemma BasenameSuffix(p: string, x: string)
    requires EndsWith(Basename(p), x)
    ensures EndsWith(p, x)
  {
    var b := Basename(p);
    assert p[|p| - |b|..] == b;
    assert p[|p| - |x|..] == b[|b| - |x|..];
  }

  /** `s.rstrip(c)` for a single character `c`. */
  function RStripChar(s: string, c: char): (r: string)
    ensures |r| <= |s| && r == s[..|r|]
    ensures forall k :: |r| <= k < |s| ==> s[k] == c
    ensures r == [] || r[|r| - 1] != c
    decreases |s|
  {
    if |s| > 0 && s[|s| - 1] == c then RStripChar(s[..|s| - 1], c) else s
  }

  /** `os.path.dirname(p)`: everything before the last component, trailing slashes dropped unless it is all slashes. */
  function Dirname(p: string): (r: string)
    ensures IsAbs(p) ==> IsAbs(r)
    ensures |r| <= |p| && r == p[..|r|]
  {
    var head := p[..ComponentStart(p)];
    assert IsAbs(p) ==> head != "" && head[0] == '/' by {
      if IsAbs(p) {
        assert p[0] == '/';
      }
    }
    if head != "" && exists k :: 0 <= k < |head| && head[k] != '/' then
      var r := RStripChar(head, '/');
      assert IsAbs(p) ==> r != [] && r[0] == '/' by {
        var k :| 0 <= k < |head| && head[k] != '/';
        assert k < |r|;
      }
      r
    else
      head
  }

  /**
   * Joining a directory that does not end in a slash with a slash-free name,
   * and taking the directory part again, gives the directory back.
   */
  lemma DirnameOfJoin(dir: string, name: string)
    requires '/' !in name
    requires dir == "" || dir[|dir| - 1] != '/'
    ensures Dirname(PathJoin(dir, name)) == dir
  {
    var j := PathJoin(dir, name);
    SlashFreeIsRelative(name);
    BasenameOfJoin(dir, name);
    var head := j[..ComponentStart(j)];
    if dir == "" {
      assert j == name;
      assert head == "";
    } else {
      assert !EndsWith(dir, "/") by {
        assert dir[|dir| - 1..] == [dir[|dir| - 1]];
      }
      assert j == dir + "/" + name;
      assert ComponentStart(j) == |dir| + 1;
      assert head == dir + "/";
      assert head[|dir| - 1] != '/';
      assert RStripChar(head, '/') == RStripChar(dir, '/');
      assert RStripChar(dir, '/') == dir;
    }
  }

  /** `s.split(c)`: the pieces between occurrences of `c`; there is always one more piece than separators. */
  function Split(s: string, c: char): (r: seq<string>)
    ensures |r| >= 1
    ensures forall k :: 0 <= k < |r| ==> c !in r[k]
    ensures Join([c], r) == s
    decreases |s|
  {
    if s == [] then [""]
    else
      var rest := Split(s[1..], c);
      if s[0] == c then
        [""] + rest
      else
        var r := [[s[0]] + rest[0]] + rest[1..];
        assert r[1..] == rest[1..];
        r
  }

  /** Text without the separator is a single piece. */
  lemma {:induction false} SplitSingle(s: string, c: char)
    requires c !in s
    ensures Split(s, c) == [s]
    decreases |s|
  {
    if s != [] {
      assert s[1..] == s[|s| - |s[1..]|..] && c !in s[1..];
      SplitSingle(s[1..], c);
      assert [s[0]] + s[1..] == s;
    }
  }

  /** A separator after a separator-free head splits off exactly that head. */
  lemma {:induction false} SplitAfter(x: string, c: char, t: string)
    requires c !in x
    ensures Split(x + [c] + t, c) == [x] + Split(t, c)
    decreases |x|
  {
    var s := x + [c] + t;
    if x == [] {
      assert s[1..] == t;
    } else {
      assert s[1..] == x[1..] + [c] + t;
      assert c !in x[1..] by {
        assert forall k :: 0 <= k < |x[1..]| ==> x[1..][k] == x[k + 1];
      }
      SplitAfter(x[1..], c, t);
      assert [x[0]] + x[1..] == x;
    }
  }

  /** Splitting undoes joining, for pieces that do not contain the separator. */
  lemma {:induction false} SplitJoin(xs: seq<string>, c: char)
    requires |xs| >= 1
    requires forall k :: 0 <= k < |xs| ==> c !in xs[k]
    ensures Split(Join([c], xs), c) == xs
    decreases |xs|
  {
    if |xs| == 1 {
      SplitSingle(xs[0], c);
    } else {
      assert Join([c], xs) == xs[0] + [c] + Join([c], xs[1..]);
      SplitAfter(xs[0], c, Join([c], xs[1..]));
      assert forall k :: 0 <= k < |xs[1..]| ==> xs[1..][k] == xs[k + 1];
      SplitJoin(xs[1..], c);
    }
  }

  /** A component `normpath` keeps: not empty, not `.`, and without a slash. */
  predicate Kept(comp: string) {
    comp != "" && comp != "." && '/' !in comp
  }

  /**
   * The component loop of `posixpath.normpath`: drop empty and `.` pieces, let
   * `..` cancel the previous kept piece, and keep a leading `..` only in a
   * relative path (or after another `..`).
   */
  function Collapse(comps: seq<string>, absolute: bool, acc: seq<string>): (r: seq<string>)
    requires forall k :: 0 <= k < |comps| ==> '/' !in comps[k]
    requires forall k :: 0 <= k < |acc| ==> Kept(acc[k])
    ensures forall k :: 0 <= k < |r| ==> Kept(r[k])
    ensures absolute && ".." !in acc ==> ".." !in r
    decreases |comps|
  {
    if comps == [] then acc
    else
      var comp := comps[0];
      if comp == "" || comp == "." then
        Collapse(comps[1..], absolute, acc)
      else if comp != ".." || (!absolute && acc == []) || (acc != [] && acc[|acc| - 1] == "..") then
        Collapse(comps[1..], absolute, acc + [comp])
      else if acc != [] then
        Collapse(comps[1..], absolute, acc[..|acc| - 1])
      else
        Collapse(comps[1..], absolute, acc)
  }

  /** A component that is kept and is not `..` is simply appended, so a normal list of components stays as it is. */
  lemma {:induction false} CollapseNormal(comps: seq<string>, absolute: bool, acc: seq<string>)
    requires forall k :: 0 <= k < |comps| ==> '/' !in comps[k] && Kept(comps[k]) && comps[k] != ".."
    requires forall k :: 0 <= k < |acc| ==> Kept(acc[k])
    ensures Collapse(comps, absolute, acc) == acc + comps
    decreases |comps|
  {
    if comps != [] {
      assert forall k :: 0 <= k < |comps[1..]| ==> comps[1..][k] == comps[k + 1];
      CollapseNormal(comps[1..], absolute, acc + [comps[0]]);
      assert acc + [comps[0]] + comps[1..] == acc + comps;
    }
  }

  /** `x/..` cancels: a kept component followed by `..` leaves the collapse where it was. */
  lemma ParentCancels(x: string, rest: seq<string>, absolute: bool, acc: seq<string>)
    requires Kept(x) && x != ".."
    requires forall k :: 0 <= k < |rest| ==> '/' !in rest[k]
    requires forall k :: 0 <= k < |acc| ==> Kept(acc[k])
    ensures Collapse([x, ".."] + rest, absolute, acc) == Collapse(rest, absolute, acc)
  {
    var comps := [x, ".."] + rest;
    assert comps[1..] == [".."] + rest;
    assert comps[1..][1..] == rest;
    assert (acc + [x])[..|acc|] == acc;
  }

  /** A joined list of slash-free, non-empty pieces starts with its first piece's first character. */
  lemma JoinStartsWithFirst(sep: string, xs: seq<string>)
    requires |xs| > 0 && xs[0] != ""
    ensures Join(sep, xs) != "" && Join(sep, xs)[0] == xs[0][0]
  {
  }

  /**
   * `os.path.normpath(p)`: never empty, absolute exactly when `p` is, and
   * made of kept components only (no `.`, no empty piece, no `..` once absolute).
   */
  function NormPath(p: string): (r: string)
    ensures r != ""
    ensures IsAbs(r) <==> IsAbs(p)
  {
    var dot := ".";
    assert !IsAbs(dot) by {
      assert dot[..1] == dot;
    }
    if p == "" then dot
    else
      var lead := if StartsWith(p, "//") && !StartsWith(p, "///") then 2
                  else if StartsWith(p, "/") then 1 else 0;
      var comps := Collapse(Split(p, '/'), lead > 0, []);
      var body := Join("/", comps);
      var full := (if lead == 2 then "//" else if lead == 1 then "/" else "") + body;
      assert comps != [] ==> body != "" && body[0] == comps[0][0] by {
        if comps != [] {
          JoinStartsWithFirst("/", comps);
        }
      }
      if full == "" then dot else full
  }

  /**
   * A path already in normal form, one slash and then kept components none of
   * which is `..`, is left as it is by `normpath`.
   */
  lemma NormalPathFixed(comps: seq<string>)
    requires |comps| >= 1
    requires forall k :: 0 <= k < |comps| ==> Kept(comps[k]) && comps[k] != ".."
    ensures NormPath("/" + Join("/", comps)) == "/" + Join("/", comps)
  {
    var p := "/" + Join("/", comps);
    OneLeadingSlash(comps);
    SingleSlashNorm(p);
    NormalCollapse(comps);
  }

  /** Such a path starts with one slash and not two. */
  lemma OneLeadingSlash(comps: seq<string>)
    requires |comps| >= 1 && comps[0] != "" && '/' !in comps[0]
    ensures StartsWith("/" + Join("/", comps), "/") && !StartsWith("/" + Join("/", comps), "//")
  {
    var p := "/" + Join("/", comps);
    JoinStartsWithFirst("/", comps);
    assert comps[0][0] in comps[0];
    assert p[..1] == "/";
    assert p[1] != '/';
  }

  /** Its components collapse to themselves. */
  lemma NormalCollapse(comps: seq<string>)
    requires |comps| >= 1
    requires forall k :: 0 <= k < |comps| ==> Kept(comps[k]) && comps[k] != ".."
    ensures Collapse(Split("/" + Join("/", comps), '/'), true, []) == comps
  {
    var parts := Split("/" + Join("/", comps), '/');
    NormalSplit(comps);
    assert parts[0] == "" && parts[1..] == comps;
    assert Collapse(parts, true, []) == Collapse(comps, true, []);
    CollapseNormal(comps, true, []);
    assert [] + comps == comps;
  }

  /** `normpath` of a path with exactly one leading slash: that slash, then the collapsed components joined. */
  lemma SingleSlashNorm(p: string)
    requires StartsWith(p, "/") && !StartsWith(p, "//")
    ensures NormPath(p) == "/" + Join("/", Collapse(Split(p, '/'), true, []))
  {
    assert p != "";
    assert !StartsWith(p, "//") || StartsWith(p, "///");
  }

  /** The pieces of such a path are the empty piece before the leading slash, then its components. */
  lemma NormalSplit(comps: seq<string>)
    requires |comps| >= 1
    requires forall k :: 0 <= k < |comps| ==> Kept(comps[k])
    ensures Split("/" + Join("/", comps), '/') == [""] + comps
  {
    var body := Join(['/'], comps);
    assert forall k :: 0 <= k < |comps| ==> '/' !in comps[k];
    SplitJoin(comps, '/');
    var p := ['/'] + body;
    assert p[0] == '/' && p[1..] == body;
    assert Split(p, '/') == [""] + Split(body, '/');
    assert ['/'] == "/";
  }

  /** `os.path.abspath(p)` with `cwd` standing for `os.getcwd()`: a relative path is joined onto `cwd` first. */
  function AbsPath(p: string, cwd: string): (r: string)
    ensures IsAbs(cwd) ==> IsAbs(r)
    ensures IsAbs(p) ==> r == NormPath(p)
    ensures !IsAbs(p) ==> r == NormPath(PathJoin(cwd, p))
  {
    NormPath(if IsAbs(p) then p else PathJoin(cwd, p))
  }
}

/**
 * The handful of Python `str` operations the bill pipeline relies on:
 * `startswith`, `endswith`, the `in` substring test, `strip()`, `replace`,
 * `join` and list reversal, written over `string` (a `seq<char>`).
 */
module Text {
  import opened Wrappers

  /** `s.startswith(p)` */
  predicate StartsWith(s: string, p: string) {
    |p| <= |s| && s[..|p|] == p
  }

  /** `s.endswith(p)` */
  predicate EndsWith(s: string, p: string) {
    |p| <= |s| && s[|s| - |p|..] == p
  }

  /** Whatever comes after a prefix, the text starts with it. */
  lemma StartsWithAppend(a: string, b: string)
    ensures StartsWith(a + b, a)
  {
    assert (a + b)[..|a|] == a;
  }

  /** Whatever is put in front of a text, it keeps its endings. */
  lemma EndsWithAppend(a: string, b: string, x: string)
    requires EndsWith(b, x)
    ensures EndsWith(a + b, x)
  {
    assert (a + b)[|a + b| - |x|..] == b[|b| - |x|..];
  }

  /**
   * When the suffix starts with a character the prefix does not contain, the
   * two cannot overlap: a text starts with `pre` and ends with `suf` exactly
   * when it is `pre`, then anything, then `suf`.
   */
  lemma Framed(s: string, pre: string, suf: string)
    requires suf != [] && suf[0] !in pre
    ensures StartsWith(s, pre) && EndsWith(s, suf) <==> exists mid :: s == pre + mid + suf
  {
    if StartsWith(s, pre) && EndsWith(s, suf) {
      assert s[|s| - |suf|] == suf[0];
      assert |s| >= |pre| + |suf|;
      var mid := s[|pre|..|s| - |suf|];
      assert s == s[..|pre|] + mid + s[|s| - |suf|..];
    }
    if exists mid :: s == pre + mid + suf {
      var mid :| s == pre + mid + suf;
      assert s[..|pre|] == pre;
      assert s[|s| - |suf|..] == suf;
    }
  }

  /** `sub in s` for strings: some suffix of `s` starts with `sub`, found by a scan from the left. */
  predicate Contains(s: string, sub: string)
    decreases |s|
  {
    StartsWith(s, sub) || (|s| > 0 && Contains(s[1..], sub))
  }

  /** The independent definition of substring: `sub` occurs at some offset `i`. */
  ghost predicate OccursAt(s: string, sub: string, i: int) {
    0 <= i <= |s| && StartsWith(s[i..], sub)
  }

  /** The scan agrees with "occurs at some offset", in both directions. */
  lemma {:induction false} ContainsIff(s: string, sub: string)
    ensures Contains(s, sub) <==> exists i :: OccursAt(s, sub, i)
    decreases |s|
  {
    if Contains(s, sub) {
      if StartsWith(s, sub) {
        assert s[0..] == s;
        assert OccursAt(s, sub, 0);
      } else {
        ContainsIff(s[1..], sub);
        var i :| OccursAt(s[1..], sub, i);
        assert s[1..][i..] == s[i + 1..];
        assert OccursAt(s, sub, i + 1);
      }
    }
    if exists i :: OccursAt(s, sub, i) {
      var i :| OccursAt(s, sub, i);
      if i == 0 {
        assert s[0..] == s;
      } else {
        assert s[1..][i - 1..] == s[i..];
        assert OccursAt(s[1..], sub, i - 1);
        ContainsIff(s[1..], sub);
      }
    }
  }

  /** Python's `(x or "")` for an optional string: None reads as the empty string. */
  function OrEmpty(x: Option<string>): string {
    x.GetOr("")
  }

  /** The characters Python's `str.isspace()` accepts, which `str.strip()` removes. */
  predicate IsSpace(c: char) {
    || ('\t' <= c <= '\r')                    // tab, line feed, vertical tab, form feed, carriage return
    || ('\U{001C}' <= c <= '\U{001F}')         // file, group, record and unit separators
    || c == ' ' || c == '\U{0085}' || c == '\U{00A0}' || c == '\U{1680}'
    || ('\U{2000}' <= c <= '\U{200A}')
    || c == '\U{2028}' || c == '\U{2029}' || c == '\U{202F}' || c == '\U{205F}' || c == '\U{3000}'
  }

  /** The end of the run of whitespace that starts at `i`. */
  function SpacesFrom(s: string, i: nat): (j: nat)
    requires i <= |s|
    ensures i <= j <= |s|
    decreases |s| - i
  {
    if i < |s| && IsSpace(s[i]) then SpacesFrom(s, i + 1) else i
  }

  /** The run found by `SpacesFrom` is whitespace, and it cannot be extended. */
  lemma {:induction false} SpacesFromSpec(s: string, i: nat)
    requires i <= |s|
    ensures forall k :: i <= k < SpacesFrom(s, i) ==> IsSpace(s[k])
    ensures SpacesFrom(s, i) == |s| || !IsSpace(s[SpacesFrom(s, i)])
    decreases |s| - i
  {
    if i < |s| && IsSpace(s[i]) {
      SpacesFromSpec(s, i + 1);
    }
  }

  /** The start of the run of whitespace that ends at `j`. */
  function SpacesBefore(s: string, j: nat): (i: nat)
    requires j <= |s|
    ensures i <= j
    decreases j
  {
    if j > 0 && IsSpace(s[j - 1]) then SpacesBefore(s, j - 1) else j
  }

  /** The run found by `SpacesBefore` is whitespace, and it cannot be extended. */
  lemma {:induction false} SpacesBeforeSpec(s: string, j: nat)
    requires j <= |s|
    ensures forall k :: SpacesBefore(s, j) <= k < j ==> IsSpace(s[k])
    ensures SpacesBefore(s, j) == 0 || !IsSpace(s[SpacesBefore(s, j) - 1])
    decreases j
  {
    if j > 0 && IsSpace(s[j - 1]) {
      SpacesBeforeSpec(s, j - 1);
    }
  }

  /** `s.lstrip()`: a suffix of `s`. */
  function LStrip(s: string): (r: string)
    ensures |r| <= |s| && r == s[|s| - |r|..]
  {
    s[SpacesFrom(s, 0)..]
  }

  /** What `lstrip()` promises: it removed only whitespace, and all of the leading whitespace. */
  lemma LStripSpec(s: string)
    ensures forall k :: 0 <= k < |s| - |LStrip(s)| ==> IsSpace(s[k])
    ensures LStrip(s) == [] || !IsSpace(LStrip(s)[0])
  {
    SpacesFromSpec(s, 0);
  }

  /** `s.rstrip()`: a prefix of `s`. */
  function RStrip(s: string): (r: string)
    ensures |r| <= |s| && r == s[..|r|]
  {
    s[..SpacesBefore(s, |s|)]
  }

  /** What `rstrip()` promises: it removed only whitespace, and all of the trailing whitespace. */
  lemma RStripSpec(s: string)
    ensures forall k :: |RStrip(s)| <= k < |s| ==> IsSpace(s[k])
    ensures RStrip(s) == [] || !IsSpace(RStrip(s)[|RStrip(s)| - 1])
  {
    SpacesBeforeSpec(s, |s|);
  }

  /** `s.strip()` */
  function Strip(s: string): string {
    RStrip(LStrip(s))
  }

  /**
   * What `strip()` promises: the result is the run `s[i..i + |r|]` of `s`, and
   * everything before and after that run is whitespace.
   */
  lemma StripSpec(s: string)
    ensures var r, i := Strip(s), |s| - |LStrip(s)|;
      && 0 <= i <= i + |r| <= |s| && r == s[i..i + |r|]
      && (forall k :: 0 <= k < i ==> IsSpace(s[k]))
      && (forall k :: i + |r| <= k < |s| ==> IsSpace(s[k]))
  {
    var l := LStrip(s);
    var r := RStrip(l);
    var i := |s| - |l|;
    LStripSpec(s);
    RStripSpec(l);
    assert r == Strip(s);
    assert s[i..][..|r|] == s[i..i + |r|];
    forall k | i + |r| <= k < |s|
      ensures IsSpace(s[k])
    {
      assert s[k] == l[k - i];
    }
  }

  /** Nothing for `strip()` to remove: no whitespace at either end. */
  predicate Stripped(s: string) {
    s == [] || (!IsSpace(s[0]) && !IsSpace(s[|s| - 1]))
  }

  /** Only whitespace: what `strip()` turns into the empty string. */
  predicate Blank(s: string) {
    forall k :: 0 <= k < |s| ==> IsSpace(s[k])
  }

  /** `strip()` leaves stripped text alone, so stripping twice is stripping once. */
  lemma StrippedFixed(s: string)
    requires Stripped(s)
    ensures Strip(s) == s
  {
    SpacesFromSpec(s, 0);
    assert LStrip(s) == s;
    SpacesBeforeSpec(s, |s|);
  }

  /** The result of `strip()` is stripped, and it is empty exactly for blank text. */
  lemma StripResult(s: string)
    ensures Stripped(Strip(s))
    ensures Strip(s) == "" <==> Blank(s)
  {
    var l := LStrip(s);
    var r := RStrip(l);
    LStripSpec(s);
    RStripSpec(l);
    if l != [] {
      assert !IsSpace(l[0]);
      assert |r| > 0;
      assert r[0] == l[0];
    }
  }

  /** `strip()` only removes characters: everything it returns was in its input. */
  lemma StripKeepsChars(s: string)
    ensures forall c :: c in Strip(s) ==> c in s
  {
    var l := LStrip(s);
    var r := RStrip(l);
    forall c | c in r
      ensures c in s
    {
      var k :| 0 <= k < |r| && r[k] == c;
      assert l[k] == c;
      assert s[|s| - |l| + k] == c;
    }
  }

  /** Every `a` of `s` turned into `b`, position by position. */
  function MapChar(s: string, a: char, b: char): (r: string)
    ensures |r| == |s|
    ensures forall k :: 0 <= k < |s| ==> r[k] == if s[k] == a then b else s[k]
  {
    seq(|s|, k requires 0 <= k < |s| => if s[k] == a then b else s[k])
  }

  /** `s` with every `c` left out and the other characters kept in order. */
  function Without(s: string, c: char): (r: string)
    ensures c !in r
    ensures forall x :: x in r <==> x in s && x != c
    decreases |s|
  {
    if s == [] then [] else (if s[0] == c then [] else [s[0]]) + Without(s[1..], c)
  }

  /**
   * `s.replace(pat, rep)`: every non-overlapping occurrence of `pat`, scanning
   * left to right, becomes `rep`. For a one-character pattern that means each
   * occurrence is replaced in place, or dropped when `rep` is empty.
   */
  function ReplaceAll(s: string, pat: string, rep: string): (r: string)
    requires pat != ""
    ensures |pat| == 1 && pat[0] !in rep ==> pat[0] !in r
    ensures !Contains(s, pat) ==> r == s
    ensures |pat| == 1 && |rep| == 1 ==> r == MapChar(s, pat[0], rep[0])
    ensures |pat| == 1 && rep == [] ==> r == Without(s, pat[0])
    decreases |s|
  {
    if StartsWith(s, pat) then
      var rest := ReplaceAll(s[|pat|..], pat, rep);
      assert |pat| == 1 ==> s[|pat|..] == s[1..] && s[0] == pat[0];
      assert |pat| == 1 && |rep| == 1 ==> rep + rest == MapChar(s, pat[0], rep[0]);
      rep + rest
    else if s == [] then
      []
    else
      var rest := ReplaceAll(s[1..], pat, rep);
      assert |pat| == 1 ==> s[0] != pat[0];
      assert |pat| == 1 && |rep| == 1 ==> [s[0]] + rest == MapChar(s, pat[0], rep[0]);
      [s[0]] + rest
  }

  /**
   * `replace` brings in no character beyond those of `rep`, and loses none
   * that is not part of `pat`.
   */
  lemma {:induction false} ReplaceAllChars(s: string, pat: string, rep: string)
    requires pat != ""
    ensures forall c :: c in ReplaceAll(s, pat, rep) ==> c in s || c in rep
    ensures forall c :: c in s && c !in pat ==> c in ReplaceAll(s, pat, rep)
    decreases |s|
  {
    if StartsWith(s, pat) {
      var tail := s[|pat|..];
      ReplaceAllChars(tail, pat, rep);
      forall c | c in s && c !in pat
        ensures c in ReplaceAll(s, pat, rep)
      {
        var k :| 0 <= k < |s| && s[k] == c;
        assert k >= |pat| by {
          assert forall j :: 0 <= j < |pat| ==> s[j] == pat[j];
        }
        assert tail[k - |pat|] == c;
      }
    } else if s != [] {
      ReplaceAllChars(s[1..], pat, rep);
      forall c | c in s && c !in pat
        ensures c in ReplaceAll(s, pat, rep)
      {
        var k :| 0 <= k < |s| && s[k] == c;
        if k > 0 {
          assert s[1..][k - 1] == c;
        }
      }
    }
  }

  /** `sep.join(xs)` */
  function Join(sep: string, xs: seq<string>): string
    decreases |xs|
  {
    if |xs| == 0 then ""
    else if |xs| == 1 then xs[0]
    else xs[0] + sep + Join(sep, xs[1..])
  }

  /** Joining one more item adds the separator and the item at the end. */
  lemma {:induction false} JoinAppend(sep: string, xs: seq<string>, y: string)
    requires |xs| > 0
    ensures Join(sep, xs + [y]) == Join(sep, xs) + sep + y
    decreases |xs|
  {
    if |xs| == 1 {
      assert xs + [y] == [xs[0], y];
      assert (xs + [y])[1..] == [y];
    } else {
      assert (xs + [y])[1..] == xs[1..] + [y];
      JoinAppend(sep, xs[1..], y);
    }
  }

  /** Joining two items puts the separator between them. */
  lemma JoinPair(sep: string, a: string, b: string)
    ensures Join(sep, [a, b]) == a + sep + b
  {
    assert [a, b][1..] == [b];
  }

  /** Text found in `b` is still found once anything is put around `b`. */
  lemma ContainsExtend(a: string, b: string, c: string, x: string)
    requires Contains(b, x)
    ensures Contains(a + b + c, x)
  {
    ContainsIff(b, x);
    var i :| OccursAt(b, x, i);
    var s := a + b + c;
    assert s[|a| + i..][..|x|] == b[i..][..|x|];
    assert OccursAt(s, x, |a| + i);
    ContainsIff(s, x);
  }

  /** Every element of a join occurs in the joined text. */
  lemma {:induction false} JoinContains(sep: string, xs: seq<string>, k: nat)
    requires k < |xs|
    ensures Contains(Join(sep, xs), xs[k])
    decreases |xs|
  {
    if |xs| == 1 {
      assert StartsWith(xs[0], xs[0]);
    } else if k == 0 {
      assert StartsWith(Join(sep, xs), xs[0]) by {
        assert Join(sep, xs) == xs[0] + (sep + Join(sep, xs[1..]));
      }
    } else {
      JoinContains(sep, xs[1..], k - 1);
      ContainsExtend(xs[0] + sep, Join(sep, xs[1..]), "", xs[k]);
      assert xs[0] + sep + Join(sep, xs[1..]) + "" == Join(sep, xs);
    }
  }

  /** `list.reverse()`: position `i` of the result holds position `|xs|-1-i` of the input. */
  function Reverse<T>(xs: seq<T>): (r: seq<T>)
    ensures |r| == |xs|
    ensures forall i :: 0 <= i < |xs| ==> r[i] == xs[|xs| - 1 - i]
    decreases |xs|
  {
    if xs == [] then [] else Reverse(xs[1..]) + [xs[0]]
  }

  /** Reversing a list with one more item at the end puts that item first. */
  lemma ReverseSnoc<T>(xs: seq<T>, y: T)
    ensures Reverse(xs + [y]) == [y] + Reverse(xs)
  {
    var a, b := Reverse(xs + [y]), [y] + Reverse(xs);
    assert |a| == |b|;
    forall i | 0 <= i < |a|
      ensures a[i] == b[i]
    {
      if i > 0 {
        assert a[i] == (xs + [y])[|xs| - i];
      }
    }
  }
}

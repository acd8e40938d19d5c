/** The two string operations the discovery step applies to output names:
    `os.path.join` of two parts, with POSIX separators, and `str.strip`
    with a string of characters to remove.
 */
module Paths {

  /** `os.path.join(dir, name)`: an absolute `name` replaces `dir`;
      otherwise one `/` goes between them unless `dir` is empty or
      already ends with one. */
  function Join(dir: string, name: string): (path: string)
    ensures |name| <= |path| && path[|path| - |name|..] == name
  {
    if |name| > 0 && name[0] == '/' then name
    else if |dir| == 0 || dir[|dir| - 1] == '/' then dir + name
    else dir + "/" + name
  }

  /** The part of `path` after its last `/`: `os.path.basename`. */
  function BaseName(path: string): (name: string)
    ensures '/' !in name && |name| <= |path|
  {
    if |path| == 0 || path[|path| - 1] == '/' then []
    else BaseName(path[..|path| - 1]) + [path[|path| - 1]]
  }

  /** The part of `path` up to and including its last `/`. */
  function DirPart(path: string): (dir: string)
    ensures |dir| <= |path|
    ensures |dir| > 0 ==> dir[|dir| - 1] == '/'
  {
    if |path| == 0 || path[|path| - 1] == '/' then path
    else DirPart(path[..|path| - 1])
  }

  /** A path is its directory part followed by its base name. */
  lemma {:induction false} DirPartBaseName(path: string)
    ensures DirPart(path) + BaseName(path) == path
  {
    if |path| > 0 && path[|path| - 1] != '/' {
      var init := path[..|path| - 1];
      DirPartBaseName(init);
      assert DirPart(init) + BaseName(init) + [path[|path| - 1]] == path;
    }
  }

  /** A name without `/` ends with no `/` in it: the base name of `s + name`
      is that of `s` followed by `name`. */
  lemma {:induction false} BaseNameAppend(s: string, name: string)
    requires '/' !in name
    ensures BaseName(s + name) == BaseName(s) + name
    decreases |name|
  {
    if |name| > 0 {
      var init := name[..|name| - 1];
      assert (s + name)[..|s + name| - 1] == s + init;
      BaseNameAppend(s, init);
      assert init + [name[|name| - 1]] == name;
    } else {
      assert s + name == s;
    }
  }

  /** Joining a name without `/` to any directory: the base name of the
      result is that name, and the directory comes first. */
  lemma {:induction false} JoinSplits(dir: string, name: string)
    requires '/' !in name
    ensures BaseName(Join(dir, name)) == name
    ensures |name| > 0 ==> dir <= Join(dir, name)
  {
    var sep := if |dir| == 0 || dir[|dir| - 1] == '/' then "" else "/";
    var path := Join(dir, name);
    assert path == (dir + sep) + name;
    assert path[..|dir|] == dir;
    BaseNameAppend(dir + sep, name);
    assert BaseName(dir + sep) == [];
  }

  /** Appending a name without `/` keeps the directory part. */
  lemma {:induction false} DirAppend(s: string, name: string)
    requires '/' !in name
    ensures DirPart(s + name) == DirPart(s)
    decreases |name|
  {
    if |name| > 0 {
      var init := name[..|name| - 1];
      assert (s + name)[..|s + name| - 1] == s + init;
      DirAppend(s, init);
    } else {
      assert s + name == s;
    }
  }

  // ---------------------------------------------------------------------
  // str.strip

  /** The first index from `i` on whose character is not in `chars`. */
  function FirstKept(s: string, chars: string, i: nat): (k: nat)
    requires i <= |s|
    ensures i <= k <= |s| && (k < |s| ==> s[k] !in chars)
    ensures forall j :: i <= j < k ==> s[j] in chars
    decreases |s| - i
  {
    if i < |s| && s[i] in chars then FirstKept(s, chars, i + 1) else i
  }

  /** The end of the last character before `j`, and at or after `lo`,
      that is not in `chars`. */
  function LastKept(s: string, chars: string, lo: nat, j: nat): (k: nat)
    requires lo <= j <= |s|
    ensures lo <= k <= j && (k > lo ==> s[k - 1] !in chars)
    ensures forall m :: k <= m < j ==> s[m] in chars
    decreases j
  {
    if j > lo && s[j - 1] in chars then LastKept(s, chars, lo, j - 1) else j
  }

  /** `s.strip(chars)`: `chars` is a set of characters, not a prefix;
      leading ones go first, then trailing ones. */
  function Strip(s: string, chars: string): (r: string)
    ensures |r| <= |s|
  {
    var a := FirstKept(s, chars, 0);
    s[a..LastKept(s, chars, a, |s|)]
  }

  /** `s.strip(chars)` is the middle part of `s` left once every
      character of `chars` is cut from both ends: all that is cut is in
      `chars`, and what is left neither begins nor ends with one. */
  lemma {:induction false} StripIs(s: string, chars: string) returns (i: nat)
    ensures var r := Strip(s, chars);
      && i + |r| <= |s| && r == s[i..i + |r|]
      && (forall k :: 0 <= k < i ==> s[k] in chars)
      && (forall k :: i + |r| <= k < |s| ==> s[k] in chars)
      && (|r| > 0 ==> r[0] !in chars && r[|r| - 1] !in chars)
  {
    i := FirstKept(s, chars, 0);
  }

  /** Stripping twice is stripping once. */
  lemma {:induction false} StripIdempotent(s: string, chars: string)
    ensures Strip(Strip(s, chars), chars) == Strip(s, chars)
  {
    var i := StripIs(s, chars);
    var r := Strip(s, chars);
    if |r| > 0 {
      StripNothing(r, chars);
    }
  }

  /** A string that neither begins nor ends with a character of `chars`
      is left alone. */
  lemma {:induction false} StripNothing(s: string, chars: string)
    requires |s| > 0 && s[0] !in chars && s[|s| - 1] !in chars
    ensures Strip(s, chars) == s
  {
  }
}

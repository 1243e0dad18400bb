/**
 * File paths as the site's build scripts take them apart: the last component, the
 * directory part (Node's `path.dirname` and Rust's `Path::parent`), and a file name
 * without its extension (Node's `path.extname`). Paths use `/` and carry no trailing or
 * doubled separators.
 */
module Paths {
  import opened Wrappers

  /** The position of the last `c` in `s`, if any. */
  function LastIndex(s: string, c: char): (r: Option<nat>)
    ensures r.Some? ==> r.value < |s| && s[r.value] == c && forall k :: r.value < k < |s| ==> s[k] != c
    ensures r.None? ==> c !in s
    decreases |s|
  {
    if |s| == 0 then None
    else if s[|s| - 1] == c then Some(|s| - 1)
    else
      var r := LastIndex(s[..|s| - 1], c);
      assert s == s[..|s| - 1] + [s[|s| - 1]];
      r
  }

  /** The text after the last `/`: the longest suffix free of `/`. */
  function Basename(p: string): (r: string)
    ensures '/' !in r
    ensures |r| <= |p| && r == p[|p| - |r|..]
    ensures |r| < |p| ==> p[|p| - |r| - 1] == '/'
    decreases |p|
  {
    if |p| == 0 || p[|p| - 1] == '/' then ""
    else Basename(p[..|p| - 1]) + [p[|p| - 1]]
  }

  /** The base name of a path ending in a `/`-free name is that name. */
  lemma {:induction false} BasenameOf(dir: string, name: string)
    requires '/' !in name
    ensures Basename(dir + "/" + name) == name
    decreases |name|
  {
    var p := dir + "/" + name;
    if |name| > 0 {
      var init := name[..|name| - 1];
      assert p[..|p| - 1] == dir + "/" + init;
      assert p[|p| - 1] == name[|name| - 1];
      BasenameOf(dir, init);
      assert name == init + [name[|name| - 1]];
    }
  }

  /** `path.dirname`: everything before the last `/`, `/` for a root entry, `.` without any `/`. */
  function Dirname(p: string): string
  {
    var i := LastIndex(p, '/');
    if i.None? then "."
    else if i.value == 0 then "/"
    else p[..i.value]
  }

  /** `Path::parent`, with `unwrap_or("")`: as `Dirname`, but empty for a bare name and for the root itself. */
  function Parent(p: string): string
  {
    var i := LastIndex(p, '/');
    if i.None? then ""
    else if i.value == 0 then (if |p| == 1 then "" else "/")
    else p[..i.value]
  }

  /** A file name without its extension: the part before the last `.`, unless that dot starts the name. */
  function Stem(name: string): string
  {
    var i := LastIndex(name, '.');
    if i.Some? && i.value > 0 then name[..i.value] else name
  }

  /** `path.basename(p, path.extname(p))`. */
  function FileStem(p: string): string
  {
    Stem(Basename(p))
  }

  /** The position of the first `c` in `s`, if any. */
  function FirstIndex(s: string, c: char): (r: Option<nat>)
    ensures r.Some? ==> r.value < |s| && s[r.value] == c && c !in s[..r.value]
    ensures r.None? ==> c !in s
    decreases |s|
  {
    if |s| == 0 then None
    else if s[0] == c then Some(0)
    else
      var r := FirstIndex(s[1..], c);
      assert s == [s[0]] + s[1..];
      if r.Some? then
        assert s[..r.value + 1] == [s[0]] + s[1..][..r.value];
        Some(r.value + 1)
      else None
  }

  /** The first `c` of `a + [c] + b` is the one between them when `a` has none. */
  lemma {:induction false} FirstIndexBefore(a: string, c: char, b: string)
    requires c !in a
    ensures FirstIndex(a + [c] + b, c) == Some(|a|)
    decreases |a|
  {
    var s := a + [c] + b;
    if |a| > 0 {
      assert s[0] == a[0];
      assert s[1..] == a[1..] + [c] + b;
      FirstIndexBefore(a[1..], c, b);
    }
  }

  /** A string with a `/`-free first component splits back into that component and the rest. */
  lemma SplitAtFirst(a: string, b: string, a': string, b': string)
    requires '/' !in a && '/' !in a'
    requires a + "/" + b == a' + "/" + b'
    ensures a == a' && b == b'
  {
    var s := a + "/" + b;
    FirstIndexBefore(a, '/', b);
    FirstIndexBefore(a', '/', b');
    assert a == s[..|a|] && a' == s[..|a'|];
    assert b == s[|a| + 1..] && b' == s[|a'| + 1..];
  }

  /** The last `c` of `a + [c] + b` is the one between them when `b` has none. */
  lemma {:induction false} LastIndexAfter(a: string, c: char, b: string)
    requires c !in b
    ensures LastIndex(a + [c] + b, c) == Some(|a|)
    decreases |b|
  {
    var s := a + [c] + b;
    if |b| > 0 {
      assert s[..|s| - 1] == a + [c] + b[..|b| - 1];
      assert s[|s| - 1] == b[|b| - 1];
      LastIndexAfter(a, c, b[..|b| - 1]);
    } else {
      assert s[|s| - 1] == c;
    }
  }

  /** The directory of `dir/name` is `dir`, for both readings of "directory". */
  lemma DirnameOf(dir: string, name: string)
    requires |dir| > 0 && '/' !in name
    ensures Dirname(dir + "/" + name) == dir
    ensures Parent(dir + "/" + name) == dir
  {
    LastIndexAfter(dir, '/', name);
    assert (dir + "/" + name)[..|dir|] == dir;
  }

  /** A bare file name has `.` as its `dirname` and no parent. */
  lemma DirnameOfName(name: string)
    requires '/' !in name
    ensures Dirname(name) == "." && Parent(name) == ""
  {
  }

  /** The stem of `stem.ext` is `stem` when the extension has no dot and the stem is not empty. */
  lemma StemOf(stem: string, ext: string)
    requires |stem| > 0 && '.' !in ext
    ensures Stem(stem + "." + ext) == stem
  {
    LastIndexAfter(stem, '.', ext);
    assert (stem + "." + ext)[..|stem|] == stem;
  }

  /** A file's stem, whatever directory it sits in. */
  lemma FileStemOf(dir: string, stem: string, ext: string)
    requires |stem| > 0 && '/' !in stem && '/' !in ext && '.' !in ext
    ensures FileStem(dir + "/" + stem + "." + ext) == stem
  {
    var name := stem + "." + ext;
    assert '/' !in name;
    assert dir + "/" + stem + "." + ext == dir + "/" + name;
    BasenameOf(dir, name);
    StemOf(stem, ext);
  }
}

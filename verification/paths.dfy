/** The POSIX path operations of Python's `posixpath` that the core calls:
    `basename`, `dirname`, two-argument `join` and `splitext`. The separator
    is '/'. */
module Paths {
  import opened Strings

  /** `os.path.basename`: the text after the last '/', i.e. the longest
      slash-free suffix. */
  function Basename(p: string): (r: string)
    ensures '/' !in r
    ensures |r| <= |p| && p[|p| - |r|..] == r
    ensures |r| < |p| ==> p[|p| - |r| - 1] == '/'
  {
    if |p| == 0 || p[|p| - 1] == '/' then "" else Basename(p[..|p| - 1]) + [p[|p| - 1]]
  }

  /** Appending slash-free text extends the basename by that text. */
  lemma {:induction false} BasenameAppend(a: string, t: string)
    requires '/' !in t
    ensures Basename(a + t) == Basename(a) + t
    decreases |t|
  {
    if |t| == 0 {
      assert a + t == a;
    } else {
      var init, last := t[..|t| - 1], t[|t| - 1];
      assert t == init + [last];
      assert '/' !in init && last != '/';
      var s := a + t;
      assert s == (a + init) + [last];
      assert s[..|s| - 1] == a + init;
      assert Basename(s) == Basename(a + init) + [last];
      BasenameAppend(a, init);
    }
  }

  predicate AllChar(s: string, c: char) {
    forall i :: 0 <= i < |s| ==> s[i] == c
  }

  function RStripSlashes(s: string): (r: string)
    ensures |r| <= |s| && r == s[..|r|]
    ensures |r| == 0 || r[|r| - 1] != '/'
  {
    if |s| > 0 && s[|s| - 1] == '/' then RStripSlashes(s[..|s| - 1]) else s
  }

  /** `os.path.dirname`: everything up to the last '/', with trailing slashes
      removed unless the head consists of slashes only. */
  function Dirname(p: string): string {
    var head := p[..|p| - |Basename(p)|];
    if head != "" && !AllChar(head, '/') then RStripSlashes(head) else head
  }

  /** `os.path.join(a, b)`: an absolute `b` replaces `a`; otherwise a '/' is
      inserted unless `a` is empty or already ends with one. */
  function Join(a: string, b: string): string {
    if |b| > 0 && b[0] == '/' then b
    else if |a| == 0 || a[|a| - 1] == '/' then a + b
    else a + "/" + b
  }

  /** Joining a plain file name onto any folder yields a path whose basename
      is that file name. */
  lemma JoinBasename(a: string, b: string)
    requires '/' !in b
    ensures Basename(Join(a, b)) == b
  {
    if |a| == 0 {
      BasenameAppend("", b);
    } else if a[|a| - 1] == '/' {
      BasenameAppend(a, b);
    } else {
      BasenameAppend(a + "/", b);
    }
  }

  /** The index of the last `c` in `s`, or -1 when there is none (see
      `LastIndexOfIsLast`). */
  function LastIndexOf(s: string, c: char): (r: int)
    ensures -1 <= r < |s|
    ensures r >= 0 ==> s[r] == c
  {
    if |s| == 0 then -1
    else if s[|s| - 1] == c then |s| - 1
    else LastIndexOf(s[..|s| - 1], c)
  }

  /** No `c` follows the index `LastIndexOf` finds. */
  lemma {:induction false} LastIndexOfIsLast(s: string, c: char)
    ensures c !in s[LastIndexOf(s, c) + 1..]
    decreases |s|
  {
    if |s| > 0 && s[|s| - 1] != c {
      var init := s[..|s| - 1];
      LastIndexOfIsLast(init, c);
      assert s[LastIndexOf(s, c) + 1..] == init[LastIndexOf(init, c) + 1..] + [s[|s| - 1]];
    }
  }

  /** `os.path.splitext`: the extension starts at the last '.' of the
      basename, provided some character before that dot is not a dot
      (so ".profile" and "..x" have no extension). */
  function SplitExt(p: string): (r: (string, string))
    ensures r.0 + r.1 == p
    ensures r.1 == "" || (r.1[0] == '.' && '.' !in r.1[1..] && '/' !in r.1)
  {
    var b := Basename(p);
    var j := LastIndexOf(b, '.');
    if j > 0 && !AllChar(b[..j], '.') then
      assert p[|p| - |b| + j..] == b[j..];
      LastIndexOfIsLast(b, '.');
      assert b[j..][1..] == b[j + 1..];
      (p[..|p| - |b| + j], b[j..])
    else (p, "")
  }

  /** The last occurrence of `c` in `a + tail` is the first character of
      `tail` when `c` does not occur again after it. */
  lemma {:induction false} LastIndexOfAfter(a: string, c: char, tail: string)
    requires |tail| > 0 && tail[0] == c && c !in tail[1..]
    ensures LastIndexOf(a + tail, c) == |a|
    decreases |tail|
  {
    var s := a + tail;
    if |tail| > 1 {
      assert s[|s| - 1] == tail[|tail| - 1] != c;
      assert s[..|s| - 1] == a + tail[..|tail| - 1];
      assert tail[..|tail| - 1][1..] == tail[1..|tail| - 1];
      LastIndexOfAfter(a, c, tail[..|tail| - 1]);
    }
  }

  lemma SplitExtAt(p: string)
    ensures var b := Basename(p);
            var j := LastIndexOf(b, '.');
            j > 0 && !AllChar(b[..j], '.') ==> SplitExt(p) == (p[..|p| - |b| + j], b[j..])
  {
  }

  /** An extension of one dot and dot-free text, appended to a stem whose
      basename has a non-dot character, is exactly what `splitext` takes off
      again. */
  lemma SplitExtAppend(stem: string, ext: string)
    requires |ext| > 0 && ext[0] == '.' && '.' !in ext[1..] && '/' !in ext
    requires !AllChar(Basename(stem), '.')
    ensures SplitExt(stem + ext) == (stem, ext)
  {
    var bs := Basename(stem);
    BasenameAppend(stem, ext);
    LastIndexOfAfter(bs, '.', ext);
    assert (bs + ext)[..|bs|] == bs;
    SplitExtAt(stem + ext);
    assert (stem + ext)[..|stem|] == stem;
    assert (bs + ext)[|bs|..] == ext;
  }

  /** A path whose basename has no dot has no extension. */
  lemma SplitExtNoDot(p: string)
    requires '.' !in Basename(p)
    ensures SplitExt(p) == (p, "")
  {
  }
}

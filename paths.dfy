/** The POSIX `os.path` functions the scripts call: `join` with two arguments,
    `basename` and `splitext`. */
module Paths {
  import opened Strings

  /** Index of the last `c` in `s`, or -1 (Python's `str.rfind`). */
  function LastIndexOf(s: string, c: char): (r: int)
    ensures -1 <= r < |s|
    ensures r >= 0 ==> s[r] == c
    ensures forall k :: r < k < |s| ==> s[k] != c
    decreases |s|
  {
    if s == [] then -1
    else if s[|s| - 1] == c then |s| - 1
    else LastIndexOf(s[..|s| - 1], c)
  }

  /** `os.path.join(a, b)`: an absolute `b` replaces `a`; otherwise a `/` is
      inserted unless `a` is empty or already ends with one. */
  function Join(a: string, b: string): string {
    if |b| > 0 && b[0] == '/' then b
    else if a == [] || a[|a| - 1] == '/' then a + b
    else a + "/" + b
  }

  /** `os.path.basename(p)`: what follows the last `/`. */
  function Basename(p: string): string {
    p[LastIndexOf(p, '/') + 1..]
  }

  /** A slash-free name after a prefix that is empty or ends in `/` is the
      base name of the whole. */
  lemma BasenameAfterSlash(q: string, name: string)
    requires q == [] || q[|q| - 1] == '/'
    requires '/' !in name
    ensures Basename(q + name) == name
  {
    var p := q + name;
    forall k | |q| <= k < |p| ensures p[k] != '/' {
      assert p[k] == name[k - |q|];
    }
    assert |q| > 0 ==> p[|q| - 1] == '/';
    assert LastIndexOf(p, '/') == |q| - 1;
    assert p[|q|..] == name;
  }

  /** Joining a directory with a plain file name yields a path whose base name
      is that file name. */
  lemma JoinBasename(dir: string, name: string)
    requires '/' !in name
    ensures Basename(Join(dir, name)) == name
  {
    if dir == [] || dir[|dir| - 1] == '/' {
      BasenameAfterSlash(dir, name);
    } else {
      assert Join(dir, name) == (dir + "/") + name;
      BasenameAfterSlash(dir + "/", name);
    }
  }

  predicate AllDots(s: string) {
    forall k :: 0 <= k < |s| ==> s[k] == '.'
  }

  /** `os.path.splitext(p)`: splits off the last `.`-suffix of the base name,
      unless every character of the base name before that dot is itself a dot
      (so `.bashrc` and `..x` have no extension). */
  function Splitext(p: string): (string, string) {
    var sepIndex := LastIndexOf(p, '/');
    var dotIndex := LastIndexOf(p, '.');
    if dotIndex > sepIndex && exists k :: sepIndex < k < dotIndex && p[k] != '.' then
      (p[..dotIndex], p[dotIndex..])
    else
      (p, "")
  }

  /** The two parts of `splitext` always concatenate back to the path, and a
      non-empty extension is one dot followed by neither a dot nor a slash. */
  lemma SplitextParts(p: string)
    ensures Splitext(p).0 + Splitext(p).1 == p
    ensures var ext := Splitext(p).1;
      ext == "" || (ext[0] == '.' && forall k :: 1 <= k < |ext| ==> ext[k] != '.' && ext[k] != '/')
  {
    var dotIndex := LastIndexOf(p, '.');
    if Splitext(p).1 != "" {
      assert p[..dotIndex] + p[dotIndex..] == p;
      var sepIndex := LastIndexOf(p, '/');
      forall k | 1 <= k < |p[dotIndex..]| ensures p[dotIndex..][k] != '.' && p[dotIndex..][k] != '/' {
        assert p[dotIndex..][k] == p[dotIndex + k];
      }
    }
  }

  /** The sibling path the scripts compute for a HEIC file,
      `os.path.splitext(p)[0] + '.jpg'`: the five-character suffix is replaced
      by `.jpg`, except for a file whose name is only dots before the suffix
      (such as `.heic`), which gets `.jpg` appended to the whole path. */
  lemma HeicSibling(p: string)
    requires EndsWith(Lower(p), ".heic")
    ensures var stem := p[..|p| - 5];
      Splitext(p).0 + ".jpg" == if AllDots(Basename(stem)) then p + ".jpg" else stem + ".jpg"
  {
    HeicSuffixShape(p);
    SiblingAt(p);
  }

  /** `splitext(p)[0] + '.jpg'` when the last dot is five characters from
      the end and nothing after it is a slash. */
  lemma SiblingAt(p: string)
    requires |p| >= 5 && LastDotAt(p, |p| - 5)
    ensures var stem := p[..|p| - 5];
      Splitext(p).0 + ".jpg" == if AllDots(Basename(stem)) then p + ".jpg" else stem + ".jpg"
  {
    SplitextAt(p, |p| - 5);
  }

  /** The last dot of `p` is at `d`, and no slash follows it. */
  predicate LastDotAt(p: string, d: nat) {
    d < |p| && p[d] == '.' && forall k :: d < k < |p| ==> p[k] != '.' && p[k] != '/'
  }

  /** When the last dot of `p` is at `d` and no slash follows it, `splitext`
      cuts at `d` unless the base name before `d` is only dots. */
  lemma SplitextAt(p: string, d: nat)
    requires LastDotAt(p, d)
    ensures Splitext(p) == if AllDots(Basename(p[..d])) then (p, "") else (p[..d], p[d..])
  {
    var stem := p[..d];
    assert LastIndexOf(p, '.') == d;
    var sepIndex := LastIndexOf(p, '/');
    var stemSep := LastIndexOf(stem, '/');
    LastIndexOfPrefix(p, d, '/');
    assert sepIndex == stemSep;
    var base := Basename(stem);
    assert base == stem[stemSep + 1..];
    if AllDots(base) {
      forall k | sepIndex < k < d ensures p[k] == '.' {
        assert p[k] == base[k - stemSep - 1];
      }
    } else {
      var j :| 0 <= j < |base| && base[j] != '.';
      assert p[stemSep + 1 + j] == base[j];
      assert sepIndex < stemSep + 1 + j < d;
    }
  }

  /** A name ending in `.heic` in any letter case has its dot five characters
      from the end and neither a dot nor a slash after it. */
  lemma HeicSuffixShape(p: string)
    requires EndsWith(Lower(p), ".heic")
    ensures |p| >= 5 && LastDotAt(p, |p| - 5)
  {
    var n := |p|;
    var tail := Lower(p)[n - 5..];
    assert tail == ".heic";
    assert LowerChar(p[n - 5]) == tail[0] == '.';
    forall k | n - 4 <= k < n ensures p[k] != '.' && p[k] != '/' {
      assert LowerChar(p[k]) == tail[k - (n - 5)];
      assert tail[k - (n - 5)] in "heic";
    }
  }

  /** Dropping a tail that holds no `c` keeps the last `c` where it was. */
  lemma {:induction false} LastIndexOfPrefix(s: string, m: nat, c: char)
    requires m <= |s|
    requires forall k :: m <= k < |s| ==> s[k] != c
    ensures LastIndexOf(s, c) == LastIndexOf(s[..m], c)
    decreases |s|
  {
    if |s| > m {
      assert s[..|s| - 1][..m] == s[..m];
      LastIndexOfPrefix(s[..|s| - 1], m, c);
    } else {
      assert s[..m] == s;
    }
  }
}

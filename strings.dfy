/** The handful of Python `str` operations the scripts rely on, stated over `seq<char>`. */
module Strings {

  /** `str.lower()` on one character; only the ASCII letters are mapped. */
  function LowerChar(c: char): char {
    if 'A' <= c <= 'Z' then (c as int + 32) as char else c
  }

  predicate IsUpper(c: char) {
    'A' <= c <= 'Z'
  }

  /** `a` and `b` are the same character up to the case of an ASCII letter. */
  predicate CaseVariant(a: char, b: char) {
    a == b || (IsUpper(a) && b as int == a as int + 32) || (IsUpper(b) && a as int == b as int + 32)
  }

  /** `str.lower()`: the string of the same length with no upper-case letter
      left that agrees with `s` up to letter case. */
  function Lower(s: string): (r: string)
    ensures |r| == |s|
    ensures forall i :: 0 <= i < |r| ==> !IsUpper(r[i])
    ensures forall i :: 0 <= i < |s| ==> CaseVariant(s[i], r[i])
  {
    seq(|s|, i requires 0 <= i < |s| => LowerChar(s[i]))
  }

  /** Those three properties leave no choice: any string meeting them is `Lower(s)`. */
  lemma LowerUnique(s: string, t: string)
    requires |t| == |s|
    requires forall i :: 0 <= i < |t| ==> !IsUpper(t[i])
    requires forall i :: 0 <= i < |s| ==> CaseVariant(s[i], t[i])
    ensures t == Lower(s)
  {
    var r := Lower(s);
    forall i | 0 <= i < |s| ensures t[i] == r[i] {
      assert CaseVariant(s[i], t[i]) && CaseVariant(s[i], r[i]);
    }
  }

  /** Names that differ only in the case of their letters lower-case alike,
      which is what makes the suffix tests case-insensitive. */
  lemma LowerIgnoresCase(a: string, b: string)
    requires |a| == |b|
    requires forall i :: 0 <= i < |a| ==> CaseVariant(a[i], b[i])
    ensures Lower(a) == Lower(b)
  {
    var la, lb := Lower(a), Lower(b);
    forall i | 0 <= i < |a| ensures la[i] == lb[i] {
      assert CaseVariant(a[i], la[i]) && CaseVariant(b[i], lb[i]) && CaseVariant(a[i], b[i]);
    }
  }

  lemma LowerIdempotent(s: string)
    ensures Lower(Lower(s)) == Lower(s)
  {
    var r := Lower(s);
    LowerUnique(r, r);
  }

  lemma LowerAppend(a: string, b: string)
    ensures Lower(a + b) == Lower(a) + Lower(b)
  {
  }

  /** `s.endswith(suffix)` */
  predicate EndsWith(s: string, suffix: string) {
    |suffix| <= |s| && s[|s| - |suffix|..] == suffix
  }

  lemma EndsWithAppend(stem: string, suffix: string)
    ensures EndsWith(stem + suffix, suffix)
  {
    assert (stem + suffix)[|stem|..] == suffix;
  }

  /** `pat` occurs in `s` starting at index `i`. */
  predicate OccursAt(s: string, pat: string, i: int) {
    0 <= i && i + |pat| <= |s| && s[i..i + |pat|] == pat
  }

  /** `pat in s` */
  predicate Contains(s: string, pat: string) {
    exists i :: 0 <= i <= |s| - |pat| && OccursAt(s, pat, i)
  }

  // ---------------------------------------------------------------------------
  // str.replace

  /** `s.replace(pat, rep)` for a non-empty `pat`: the leftmost occurrence is
      replaced first and the scan resumes after it, so occurrences never overlap. */
  function Replace(s: string, pat: string, rep: string): string
    requires |pat| > 0
    decreases |s|
  {
    if |s| < |pat| then s
    else if s[..|pat|] == pat then rep + Replace(s[|pat|..], pat, rep)
    else [s[0]] + Replace(s[1..], pat, rep)
  }

  /** A string with no occurrence of `pat` comes back unchanged. */
  lemma {:induction false} ReplaceAbsent(s: string, pat: string, rep: string)
    requires |pat| > 0
    requires forall i :: !OccursAt(s, pat, i)
    ensures Replace(s, pat, rep) == s
    decreases |s|
  {
    if |s| >= |pat| {
      assert !OccursAt(s, pat, 0);
      forall i ensures !OccursAt(s[1..], pat, i) {
        if OccursAt(s[1..], pat, i) {
          assert s[1..][i..i + |pat|] == s[i + 1..i + 1 + |pat|];
          assert OccursAt(s, pat, i + 1);
        }
      }
      ReplaceAbsent(s[1..], pat, rep);
      assert s == [s[0]] + s[1..];
    }
  }

  /** When the first occurrence of `pat` in `s` starts right after `stem`,
      `stem` is copied and that occurrence replaced before the scan goes on. */
  lemma ReplaceHit(s: string, pat: string, rep: string)
    requires 0 < |pat| <= |s| && s[..|pat|] == pat
    ensures Replace(s, pat, rep) == rep + Replace(s[|pat|..], pat, rep)
  {
  }

  lemma ReplaceMiss(s: string, pat: string, rep: string)
    requires 0 < |pat| <= |s| && s[..|pat|] != pat
    ensures Replace(s, pat, rep) == [s[0]] + Replace(s[1..], pat, rep)
  {
  }

  /** No occurrence before `stem` ends stays so after dropping the first character. */
  lemma NoEarlyOccurrenceTail(stem: string, pat: string, rest: string)
    requires |stem| > 0
    requires forall i :: 0 <= i < |stem| ==> !OccursAt(stem + pat + rest, pat, i)
    ensures forall i :: 0 <= i < |stem[1..]| ==> !OccursAt(stem[1..] + pat + rest, pat, i)
  {
    var s := stem + pat + rest;
    assert s[1..] == stem[1..] + pat + rest;
    forall i | 0 <= i < |stem[1..]| ensures !OccursAt(stem[1..] + pat + rest, pat, i) {
      assert !OccursAt(s, pat, i + 1);
      assert s[i + 1..i + 1 + |pat|] == s[1..][i..i + |pat|];
    }
  }

  lemma ReplaceAtStart(pat: string, rest: string, rep: string)
    requires |pat| > 0
    ensures Replace(pat + rest, pat, rep) == rep + Replace(rest, pat, rep)
  {
    var s := pat + rest;
    assert s[..|pat|] == pat;
    assert s[|pat|..] == rest;
    ReplaceHit(s, pat, rep);
  }

  lemma ReplaceSkipOne(stem: string, pat: string, rest: string, rep: string, r: string)
    requires 0 < |pat| && 0 < |stem|
    requires !OccursAt(stem + pat + rest, pat, 0)
    requires Replace(stem[1..] + pat + rest, pat, rep) == stem[1..] + r
    ensures Replace(stem + pat + rest, pat, rep) == stem + r
  {
    var s := stem + pat + rest;
    assert s[0] == stem[0] && s[1..] == stem[1..] + pat + rest;
    assert Replace(s, pat, rep) == [s[0]] + Replace(s[1..], pat, rep) by {
      ReplaceMiss(s, pat, rep);
    }
    assert [stem[0]] + (stem[1..] + r) == stem + r by {
      assert [stem[0]] + stem[1..] == stem;
    }
  }

  /** Replacing in `stem + pat + rest`, where `pat` first occurs right after `stem`. */
  lemma {:induction false} ReplaceFirst(stem: string, pat: string, rest: string, rep: string)
    requires |pat| > 0
    requires forall i :: 0 <= i < |stem| ==> !OccursAt(stem + pat + rest, pat, i)
    ensures Replace(stem + pat + rest, pat, rep) == stem + rep + Replace(rest, pat, rep)
    decreases |stem|
  {
    var r := rep + Replace(rest, pat, rep);
    assert stem + rep + Replace(rest, pat, rep) == stem + r;
    if stem == [] {
      assert stem + pat + rest == pat + rest;
      ReplaceAtStart(pat, rest, rep);
    } else {
      assert Replace(stem[1..] + pat + rest, pat, rep) == stem[1..] + r by {
        NoEarlyOccurrenceTail(stem, pat, rest);
        ReplaceFirst(stem[1..], pat, rest, rep);
        assert stem[1..] + rep + Replace(rest, pat, rep) == stem[1..] + r;
      }
      ReplaceSkipOne(stem, pat, rest, rep, r);
    }
  }

  // ---------------------------------------------------------------------------
  // str.split(sep) with a one-character separator

  /** The index of the first `c` in `s`, or `|s|` when there is none. */
  function IndexOf(s: string, c: char): (k: nat)
    ensures k <= |s|
    ensures k < |s| ==> s[k] == c
    ensures forall j :: 0 <= j < k ==> s[j] != c
    decreases |s|
  {
    if s == [] then 0
    else if s[0] == c then 0
    else 1 + IndexOf(s[1..], c)
  }

  /** `s.split(sep)`: the pieces between separators, empty pieces included. */
  function SplitOn(s: string, sep: char): seq<string>
    decreases |s|
  {
    var k := IndexOf(s, sep);
    if k == |s| then [s] else [s[..k]] + SplitOn(s[k + 1..], sep)
  }

  /** A string without the separator is a single piece. */
  lemma SplitOnNone(s: string, sep: char)
    requires sep !in s
    ensures SplitOn(s, sep) == [s]
  {
    assert IndexOf(s, sep) == |s|;
  }

  /** `sep.join(pieces)` */
  function JoinWith(pieces: seq<string>, sep: char): string {
    if |pieces| <= 1 then (if pieces == [] then "" else pieces[0])
    else pieces[0] + [sep] + JoinWith(pieces[1..], sep)
  }

  lemma ContainsLeft(a: string, b: string, pat: string)
    requires Contains(a, pat)
    ensures Contains(a + b, pat)
  {
    var i :| 0 <= i <= |a| - |pat| && OccursAt(a, pat, i);
    assert (a + b)[i..i + |pat|] == a[i..i + |pat|];
    assert OccursAt(a + b, pat, i);
  }

  lemma ContainsRight(a: string, b: string, pat: string)
    requires Contains(b, pat)
    ensures Contains(a + b, pat)
  {
    var i :| 0 <= i <= |b| - |pat| && OccursAt(b, pat, i);
    assert (a + b)[|a| + i..|a| + i + |pat|] == b[i..i + |pat|];
    assert OccursAt(a + b, pat, |a| + i);
  }

  /** What one piece contains, the joined text contains. */
  lemma {:induction false} JoinContains(pieces: seq<string>, sep: char, pat: string, k: nat)
    requires k < |pieces| && Contains(pieces[k], pat)
    ensures Contains(JoinWith(pieces, sep), pat)
    decreases |pieces|
  {
    if |pieces| > 1 {
      var rest := JoinWith(pieces[1..], sep);
      assert JoinWith(pieces, sep) == pieces[0] + ([sep] + rest);
      if k == 0 {
        ContainsLeft(pieces[0], [sep] + rest, pat);
      } else {
        JoinContains(pieces[1..], sep, pat, k - 1);
        ContainsRight([sep], rest, pat);
        ContainsRight(pieces[0], [sep] + rest, pat);
      }
    }
  }

  /** Splitting yields at least one piece, no piece holds the separator, and
      joining the pieces back gives the original string. */
  lemma {:induction false} SplitOnJoin(s: string, sep: char)
    ensures |SplitOn(s, sep)| >= 1
    ensures forall p :: p in SplitOn(s, sep) ==> sep !in p
    ensures JoinWith(SplitOn(s, sep), sep) == s
    decreases |s|
  {
    var k := IndexOf(s, sep);
    if k < |s| {
      var head, tail := s[..k], s[k + 1..];
      var rest := SplitOn(tail, sep);
      assert SplitOn(s, sep) == [head] + rest;
      SplitOnJoin(tail, sep);
      assert sep !in head;
      PiecesAvoid(head, rest, sep);
      JoinWithCons(head, rest, sep);
      assert s == head + [sep] + tail;
    }
  }

  lemma PiecesAvoid(head: string, rest: seq<string>, sep: char)
    requires sep !in head
    requires forall p :: p in rest ==> sep !in p
    ensures forall p :: p in [head] + rest ==> sep !in p
  {
  }

  /** Joining a piece in front of at least one more puts a separator between. */
  lemma JoinWithCons(head: string, rest: seq<string>, sep: char)
    requires |rest| >= 1
    ensures JoinWith([head] + rest, sep) == head + [sep] + JoinWith(rest, sep)
  {
    assert ([head] + rest)[1..] == rest;
  }

  /** One step of `split`: the piece before the first separator, then the
      split of what follows it. */
  lemma SplitOnStep(s: string, sep: char)
    requires IndexOf(s, sep) < |s|
    ensures var k := IndexOf(s, sep);
      SplitOn(s, sep) == [s[..k]] + SplitOn(s[k + 1..], sep)
  {
  }

  /** The last step of `split`: no separator is left. */
  lemma SplitOnLast(s: string, sep: char)
    requires IndexOf(s, sep) == |s|
    ensures SplitOn(s, sep) == [s]
  {
  }

  /** An occurrence of a pattern free of the separator spans no separator. */
  lemma OccurrenceAvoids(s: string, sep: char, pat: string, i: int)
    requires sep !in pat
    requires OccursAt(s, pat, i)
    ensures forall j :: i <= j < i + |pat| ==> s[j] != sep
  {
    forall j | i <= j < i + |pat| ensures s[j] != sep {
      assert s[j] == s[i..i + |pat|][j - i] == pat[j - i];
    }
  }

  lemma OccurrenceInPrefix(s: string, pat: string, i: int, k: nat)
    requires k <= |s| && OccursAt(s, pat, i) && i + |pat| <= k
    ensures OccursAt(s[..k], pat, i)
  {
    assert s[..k][i..i + |pat|] == s[i..i + |pat|];
  }

  lemma OccurrenceInSuffix(s: string, pat: string, i: int, k: nat)
    requires k < |s| && OccursAt(s, pat, i) && k < i
    ensures OccursAt(s[k + 1..], pat, i - k - 1)
  {
    assert s[k + 1..][i - k - 1..i - k - 1 + |pat|] == s[i..i + |pat|];
  }

  /** A pattern free of the separator that occurs in `s` occurs inside one piece. */
  lemma {:induction false} SplitOnKeepsOccurrence(s: string, sep: char, pat: string, i: int)
    requires sep !in pat
    requires OccursAt(s, pat, i)
    ensures exists p :: p in SplitOn(s, sep) && Contains(p, pat)
    decreases |s|
  {
    var k := IndexOf(s, sep);
    if k == |s| {
      SplitOnLast(s, sep);
      assert Contains(s, pat);
      assert s in SplitOn(s, sep);
    } else {
      var head := s[..k];
      var t := s[k + 1..];
      assert SplitOn(s, sep) == [head] + SplitOn(t, sep) by {
        SplitOnStep(s, sep);
      }
      if i + |pat| <= k {
        OccurrenceInPrefix(s, pat, i, k);
        assert Contains(head, pat);
        assert head in SplitOn(s, sep);
      } else {
        assert k < i by {
          OccurrenceAvoids(s, sep, pat, i);
        }
        OccurrenceInSuffix(s, pat, i, k);
        SplitOnKeepsOccurrence(t, sep, pat, i - k - 1);
        var p :| p in SplitOn(t, sep) && Contains(p, pat);
        assert p in SplitOn(s, sep);
      }
    }
  }

  // ---------------------------------------------------------------------------
  // str.split() with no argument

  /** The characters Python's `str.isspace()` accepts. */
  predicate IsSpace(c: char) {
    c == ' ' || ('\t' <= c <= '\r') || ('\U{1C}' <= c <= '\U{1F}') || c == '\U{85}' ||
    c == '\U{A0}' || c == '\U{1680}' || ('\U{2000}' <= c <= '\U{200A}') ||
    c == '\U{2028}' || c == '\U{2029}' || c == '\U{202F}' || c == '\U{205F}' || c == '\U{3000}'
  }

  predicate NoSpace(s: string) {
    forall i :: 0 <= i < |s| ==> !IsSpace(s[i])
  }

  /** Length of the run of non-space characters that starts `s`. */
  function RunLength(s: string): (n: nat)
    ensures n <= |s|
    ensures NoSpace(s[..n])
    ensures n < |s| ==> IsSpace(s[n])
    decreases |s|
  {
    if s == [] || IsSpace(s[0]) then 0 else 1 + RunLength(s[1..])
  }

  /** `s.split()`: the maximal runs of non-space characters, in order. */
  function Tokens(s: string): (r: seq<string>)
    ensures forall k :: 0 <= k < |r| ==> r[k] != [] && NoSpace(r[k])
    ensures r == [] <==> forall i :: 0 <= i < |s| ==> IsSpace(s[i])
    decreases |s|
  {
    if s == [] then []
    else if IsSpace(s[0]) then Tokens(s[1..])
    else
      var n := RunLength(s);
      [s[..n]] + Tokens(s[n..])
  }

  /** A run of non-space characters followed by a space or the end is one token. */
  lemma {:induction false} RunLengthOf(a: string, rest: string)
    requires NoSpace(a)
    requires rest == [] || IsSpace(rest[0])
    ensures RunLength(a + rest) == |a|
    decreases |a|
  {
    if a != [] {
      assert (a + rest)[1..] == a[1..] + rest;
      RunLengthOf(a[1..], rest);
    } else {
      assert a + rest == rest;
    }
  }

  /** The first token of `a`, a whitespace character and `rest` is `a`. */
  lemma TokensCons(a: string, c: char, rest: string)
    requires a != [] && NoSpace(a) && IsSpace(c)
    ensures Tokens(a + [c] + rest) == [a] + Tokens(rest)
  {
    var s := a + [c] + rest;
    RunLengthOf(a, [c] + rest);
    assert s == a + ([c] + rest);
    assert s[..|a|] == a;
    assert s[|a|..] == [c] + rest;
    TokensSkipSpace(c, rest);
  }

  /** Leading whitespace produces no token. */
  lemma TokensSkipSpace(c: char, rest: string)
    requires IsSpace(c)
    ensures Tokens([c] + rest) == Tokens(rest)
  {
    assert ([c] + rest)[1..] == rest;
  }

  /** A string without spaces is a single token. */
  lemma TokensSingle(a: string)
    requires a != [] && NoSpace(a)
    ensures Tokens(a) == [a]
  {
    RunLengthOf(a, []);
    assert a + [] == a;
  }

  // ---------------------------------------------------------------------------
  // str.strip(c)

  /** `s.lstrip(c)` */
  function StripLeft(s: string, c: char): (r: string)
    ensures |r| <= |s| && r == s[|s| - |r|..]
    ensures forall k :: 0 <= k < |s| - |r| ==> s[k] == c
    ensures r == [] || r[0] != c
    decreases |s|
  {
    if s != [] && s[0] == c then StripLeft(s[1..], c) else s
  }

  /** `s.rstrip(c)` */
  function StripRight(s: string, c: char): (r: string)
    ensures |r| <= |s| && r == s[..|r|]
    ensures forall k :: |r| <= k < |s| ==> s[k] == c
    ensures r == [] || r[|r| - 1] != c
    decreases |s|
  {
    if s != [] && s[|s| - 1] == c then StripRight(s[..|s| - 1], c) else s
  }

  /** `s.strip(c)`: drops every leading and every trailing `c`. */
  function Strip(s: string, c: char): string {
    StripRight(StripLeft(s, c), c)
  }
}

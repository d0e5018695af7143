/** `find_firefox_binary`: the binary named by the `exec` line of the
    `firefox` wrapper script on the `PATH`, else the first of three well-known
    install locations that is a regular file. The file system is given as the
    set of paths that are regular files and the map of files whose text can be
    read. */
module Firefox {
  import opened Strings
  import opened Optional

  /** What the lookup ends in: the binary, `None`, or an exception escaping
      from reading the wrapper script (no `try` guards the read). */
  datatype Lookup = Found(path: string) | NotFound | ReadFailed

  /** The install locations tried after the wrapper script, in this order. */
  const Fallbacks: seq<string> := [
    "/usr/lib/firefox/firefox",
    "/opt/firefox/firefox",
    "/snap/firefox/current/usr/lib/firefox/firefox"
  ]

  /** Lines that contain `exec`, in their original order. */
  function ExecLines(lines: seq<string>): (r: seq<string>)
    ensures |r| <= |lines|
    ensures forall x :: x in r <==> x in lines && Contains(x, "exec")
  {
    if lines == [] then []
    else (if Contains(lines[0], "exec") then [lines[0]] else []) + ExecLines(lines[1..])
  }

  /** The first piece holding `exec` is the first element of the filtered list. */
  lemma {:induction false} ExecLinesFirst(lines: seq<string>, k: nat)
    requires k < |lines| && Contains(lines[k], "exec")
    requires forall j :: 0 <= j < k ==> !Contains(lines[j], "exec")
    ensures ExecLines(lines) != [] && ExecLines(lines)[0] == lines[k]
  {
    if k > 0 {
      ExecLinesFirst(lines[1..], k - 1);
    }
  }

  /** A text containing `exec` has a line (a piece between `\n`s) containing it. */
  lemma ExecLineExists(content: string)
    requires Contains(content, "exec")
    ensures ExecLines(SplitOn(content, '\n')) != []
  {
    var i :| 0 <= i <= |content| - 4 && OccursAt(content, "exec", i);
    SplitOnKeepsOccurrence(content, '\n', "exec", i);
    var p :| p in SplitOn(content, '\n') && Contains(p, "exec");
    assert p in ExecLines(SplitOn(content, '\n'));
  }

  /** A line containing `exec` has at least one whitespace-separated token. */
  lemma ExecLineHasToken(line: string)
    requires Contains(line, "exec")
    ensures Tokens(line) != []
  {
    var i :| 0 <= i <= |line| - 4 && OccursAt(line, "exec", i);
    assert line[i] == "exec"[0];
    assert !IsSpace(line[i]);
  }

  /** The first line of a text containing `exec` that contains it. */
  function FirstExecLine(content: string): (line: string)
    requires Contains(content, "exec")
    ensures Contains(line, "exec")
  {
    ExecLineExists(content);
    var line := ExecLines(SplitOn(content, '\n'))[0];
    assert line in ExecLines(SplitOn(content, '\n'));
    line
  }

  /** The last whitespace-separated token of a line containing `exec`
      (`line.split()[-1]`). */
  function LastToken(line: string): (t: string)
    requires Contains(line, "exec")
    ensures NoSpace(t)
  {
    ExecLineHasToken(line);
    var tokens := Tokens(line);
    tokens[|tokens| - 1]
  }

  /** Stripping quotes from a token leaves a token. */
  lemma StripKeepsNoSpace(token: string)
    requires NoSpace(token)
    ensures NoSpace(Strip(token, '"'))
  {
    var left := StripLeft(token, '"');
    var target := Strip(token, '"');
    forall k | 0 <= k < |target| ensures !IsSpace(target[k]) {
      assert target[k] == left[k] == token[|token| - |left| + k];
    }
  }

  /** The binary the wrapper script names: the last token of its first line
      containing `exec`, with `"` stripped from both ends; `None` when the
      script does not contain `exec` at all. */
  function WrapperTarget(content: string): (r: Option<string>)
    ensures r.Some? <==> Contains(content, "exec")
    ensures r.Some? ==> NoSpace(r.value)
    ensures r.Some? ==> r.value == [] || (r.value[0] != '"' && r.value[|r.value| - 1] != '"')
  {
    if Contains(content, "exec") then
      var token := LastToken(FirstExecLine(content));
      StripKeepsNoSpace(token);
      Some(Strip(token, '"'))
    else
      None
  }

  /** The wrapper's target is computed from the first line that contains
      `exec`, whichever later lines also do. */
  lemma WrapperTargetFirstLine(content: string, k: nat)
    requires var lines := SplitOn(content, '\n');
      k < |lines| && Contains(lines[k], "exec") &&
      forall j :: 0 <= j < k ==> !Contains(lines[j], "exec")
    ensures var line := SplitOn(content, '\n')[k];
      Tokens(line) != [] &&
      WrapperTarget(content) == Some(Strip(Tokens(line)[|Tokens(line)| - 1], '"'))
  {
    var lines := SplitOn(content, '\n');
    assert lines[k] in lines;
    var i :| 0 <= i <= |lines[k]| - 4 && OccursAt(lines[k], "exec", i);
    ContainsAcrossLines(content, k);
    ExecLinesFirst(lines, k);
    ExecLineHasToken(lines[k]);
  }

  /** A line of the text that contains `exec` makes the text contain it. */
  lemma ContainsAcrossLines(content: string, k: nat)
    requires k < |SplitOn(content, '\n')| && Contains(SplitOn(content, '\n')[k], "exec")
    ensures Contains(content, "exec")
  {
    SplitOnJoin(content, '\n');
    JoinContains(SplitOn(content, '\n'), '\n', "exec", k);
  }

  /** `paths[k]` is the first regular file of `paths[i..]`. */
  predicate FirstFileAt(paths: seq<string>, isFile: set<string>, i: nat, k: nat) {
    i <= k < |paths| && paths[k] in isFile && forall j :: i <= j < k ==> paths[j] !in isFile
  }

  /** The first of `paths[i..]` that is a regular file. */
  function FirstExisting(paths: seq<string>, isFile: set<string>, i: nat): (r: Lookup)
    requires i <= |paths|
    ensures r != ReadFailed
    ensures r.Found? ==> exists k: nat :: FirstFileAt(paths, isFile, i, k) && paths[k] == r.path
    ensures r == NotFound <==> forall j :: i <= j < |paths| ==> paths[j] !in isFile
    decreases |paths| - i
  {
    if i == |paths| then NotFound
    else if paths[i] in isFile then
      assert FirstFileAt(paths, isFile, i, i);
      Found(paths[i])
    else FirstExisting(paths, isFile, i + 1)
  }

  /** The outcome of `find_firefox_binary`, given what `which firefox` printed,
      the regular files, and the readable text files. */
  function FirefoxLookup(which: string, isFile: set<string>, text: map<string, string>): Lookup {
    if which in isFile && which !in text then ReadFailed
    else
      var target := if which in isFile then WrapperTarget(text[which]) else None;
      if target.Some? && target.value in isFile then Found(target.value)
      else FirstExisting(Fallbacks, isFile, 0)
  }

  /** The lookup mirrors the script: the wrapper's binary first, then the
      fallback locations in order, returning at the first regular file. */
  method FindFirefoxBinary(which: string, isFile: set<string>, text: map<string, string>)
    returns (r: Lookup)
    ensures r == FirefoxLookup(which, isFile, text)
  {
    if which in isFile {
      if which !in text {
        return ReadFailed;
      }
      var content := text[which];
      if Contains(content, "exec") {
        var target := WrapperTarget(content);
        if target.value in isFile {
          return Found(target.value);
        }
      }
    }
    for i := 0 to |Fallbacks|
      invariant FirstExisting(Fallbacks, isFile, 0) == FirstExisting(Fallbacks, isFile, i)
    {
      if Fallbacks[i] in isFile {
        return Found(Fallbacks[i]);
      }
    }
    return NotFound;
  }

  /** Whatever the lookup finds is a regular file, and it is either the
      wrapper's binary or one of the fallback locations. */
  lemma LookupFindsFile(which: string, isFile: set<string>, text: map<string, string>)
    ensures var r := FirefoxLookup(which, isFile, text);
      r.Found? ==> (r.path in isFile &&
        ((which in text && WrapperTarget(text[which]) == Some(r.path)) || r.path in Fallbacks))
  {
  }

  /** When the wrapper names an existing binary, the fallback locations are
      never consulted. */
  lemma WrapperWins(which: string, isFile: set<string>, text: map<string, string>)
    requires which in isFile && which in text
    requires WrapperTarget(text[which]).Some? && WrapperTarget(text[which]).value in isFile
    ensures FirefoxLookup(which, isFile, text) == Found(WrapperTarget(text[which]).value)
  {
  }

  /** Without a usable wrapper, the result is the first existing fallback,
      and `None` only when none of the three exists. */
  lemma FallbackOrder(which: string, isFile: set<string>, text: map<string, string>)
    requires which !in isFile || (which in text &&
      (WrapperTarget(text[which]).None? || WrapperTarget(text[which]).value !in isFile))
    ensures FirefoxLookup(which, isFile, text) == NotFound <==>
      (Fallbacks[0] !in isFile && Fallbacks[1] !in isFile && Fallbacks[2] !in isFile)
    ensures Fallbacks[0] in isFile ==> FirefoxLookup(which, isFile, text) == Found(Fallbacks[0])
    ensures Fallbacks[0] !in isFile && Fallbacks[1] in isFile ==>
      FirefoxLookup(which, isFile, text) == Found(Fallbacks[1])
    ensures Fallbacks[0] !in isFile && Fallbacks[1] !in isFile && Fallbacks[2] in isFile ==>
      FirefoxLookup(which, isFile, text) == Found(Fallbacks[2])
  {
    var r := FirstExisting(Fallbacks, isFile, 0);
    if Fallbacks[0] !in isFile {
      assert FirstExisting(Fallbacks, isFile, 0) == FirstExisting(Fallbacks, isFile, 1);
      if Fallbacks[1] !in isFile {
        assert FirstExisting(Fallbacks, isFile, 1) == FirstExisting(Fallbacks, isFile, 2);
        if Fallbacks[2] !in isFile {
          assert FirstExisting(Fallbacks, isFile, 2) == FirstExisting(Fallbacks, isFile, 3);
        }
      }
    }
  }

  /** A wrapper whose first `exec` line ends by passing the arguments on, as
      in `exec /usr/lib/firefox/firefox "$@"`, yields `$@` rather than the
      binary, so the lookup falls through to the fallback locations unless a
      file named `$@` exists. */
  lemma ForwardingWrapper(content: string, k: nat)
    requires var lines := SplitOn(content, '\n');
      k < |lines| && Contains(lines[k], "exec") &&
      (forall j :: 0 <= j < k ==> !Contains(lines[j], "exec")) &&
      var tokens := Tokens(lines[k]);
      tokens != [] && tokens[|tokens| - 1] == "\"$@\""
    ensures WrapperTarget(content) == Some("$@")
  {
    WrapperTargetFirstLine(content, k);
    StripForwardedArgs();
  }

  /** Stripping `"` from `"$@"` leaves `$@`. */
  lemma StripForwardedArgs()
    ensures Strip("\"$@\"", '"') == "$@"
  {
    var quoted := "\"$@\"";
    var args := quoted[1..];
    assert args[0] == '$';
    assert StripLeft(args, '"') == args;
    assert StripLeft(quoted, '"') == args;
    assert args[..2] == "$@";
    assert StripRight(args[..2], '"') == "$@";
  }
}

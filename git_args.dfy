/** How the server turns ignore patterns into git pathspecs and builds the
    argument vectors of the two git commands it runs to collect the diff. */
module GitArgs {
  import opened Wrappers
  import opened Strings

  /** The pathspec magic that makes a pattern an exclusion, matched as a glob
      from the top of the work tree. */
  const ExcludeMagic: string := ":(exclude,glob,top)"

  /** Patterns left out of every review. */
  const AlwaysIgnoredPatterns: seq<string> := ["**/package-lock.json", "**/pnpm-lock.yaml"]

  /** A pattern with surrounding whitespace removed, then one leading `./`,
      then one leading `/`. */
  function Clean(pattern: string): string {
    TrimPrefix(TrimPrefix(Trim(pattern), "./"), "/")
  }

  /** Cleaning removes at most `./` then `/` from the trimmed pattern. */
  lemma CleanStrips(pattern: string)
    ensures var t, r := Trim(pattern), Clean(pattern);
            && |r| <= |t| && t[|t| - |r|..] == r
            && t[..|t| - |r|] in ["", "/", "./", ".//"]
  {
    var t := Trim(pattern);
    assert Clean(pattern) == TrimPrefix(TrimPrefix(t, "./"), "/");
    StripLeading(t);
  }

  lemma StripLeading(t: string)
    ensures var r := TrimPrefix(TrimPrefix(t, "./"), "/");
            && |r| <= |t| && t[|t| - |r|..] == r
            && t[..|t| - |r|] in ["", "/", "./", ".//"]
  {
    var a := TrimPrefix(t, "./");
    var r := TrimPrefix(a, "/");
    var p1: string := if HasPrefix(t, "./") then "./" else "";
    var p2: string := if HasPrefix(a, "/") then "/" else "";
    assert t == p1 + a && a == p2 + r by {
      TrimPrefixStrips(t, "./");
      TrimPrefixStrips(a, "/");
    }
    assert t == (p1 + p2) + r;
    assert t[|t| - |r|..] == r && t[..|t| - |r|] == p1 + p2;
    var choices: seq<string> := ["", "/", "./", ".//"];
    if p1 == "" {
      if p2 == "" { assert p1 + p2 == choices[0]; } else { assert p1 + p2 == choices[1]; }
    } else {
      if p2 == "" { assert p1 + p2 == choices[2]; } else { assert p1 + p2 == choices[3]; }
    }
  }

  /** `strings.TrimPrefix` removes `p` or nothing from the front. */
  lemma TrimPrefixStrips(s: string, p: string)
    ensures s == (if HasPrefix(s, p) then p else "") + TrimPrefix(s, p)
  {
  }

  /** The exclusion for a cleaned, non-empty pattern; a directory pattern
      (one ending in `/`) covers everything below it. */
  function ExcludeOf(cleaned: string): string
    requires cleaned != ""
  {
    ExcludeMagic + (if HasSuffix(cleaned, "/") then cleaned + "**" else cleaned)
  }

  /** An exclusion carries the magic, a pattern after it, and no trailing
      `/`; a directory pattern gets `**` appended and any other is kept. */
  lemma ExcludeOfShape(cleaned: string)
    requires cleaned != ""
    ensures IsExclude(ExcludeOf(cleaned))
    ensures HasSuffix(cleaned, "/") <==> ExcludeOf(cleaned) == ExcludeMagic + cleaned + "**"
    ensures !HasSuffix(cleaned, "/") <==> ExcludeOf(cleaned) == ExcludeMagic + cleaned
  {
    var p := if HasSuffix(cleaned, "/") then cleaned + "**" else cleaned;
    var r := ExcludeMagic + p;
    assert r[..|ExcludeMagic|] == ExcludeMagic;
    assert r[|r| - 1] == p[|p| - 1];
    assert HasSuffix(cleaned, "/") ==> |r| != |ExcludeMagic + cleaned|;
    assert !HasSuffix(cleaned, "/") ==> |r| != |ExcludeMagic + cleaned + "**"|;
  }

  /** An entry that `buildPathspecExcludes` can produce. */
  predicate IsExclude(e: string) {
    HasPrefix(e, ExcludeMagic) && |e| > |ExcludeMagic| && !HasSuffix(e, "/")
  }

  /** Each pattern cleaned. */
  function CleanAll(patterns: seq<string>): (r: seq<string>)
    ensures |r| == |patterns| && forall i :: 0 <= i < |r| ==> r[i] == Clean(patterns[i])
  {
    seq(|patterns|, i requires 0 <= i < |patterns| => Clean(patterns[i]))
  }

  /** The exclusions for cleaned patterns, in order; empty ones are dropped. */
  function Translated(cleaned: seq<string>): (r: seq<string>)
    ensures |r| <= |cleaned|
    decreases |cleaned|
  {
    if |cleaned| == 0 then []
    else
      var r := Translated(cleaned[..|cleaned| - 1]);
      var c := cleaned[|cleaned| - 1];
      if c == "" then r else r + [ExcludeOf(c)]
  }

  /** The exclusions for `patterns`, in order; patterns that clean to nothing
      are dropped. */
  function Excludes(patterns: seq<string>): (r: seq<string>)
    ensures |r| <= |patterns|
  {
    Translated(CleanAll(patterns))
  }

  lemma {:induction false} TranslatedShape(cleaned: seq<string>)
    ensures forall i :: 0 <= i < |Translated(cleaned)| ==> IsExclude(Translated(cleaned)[i])
    decreases |cleaned|
  {
    if |cleaned| > 0 {
      TranslatedShape(cleaned[..|cleaned| - 1]);
      var c := cleaned[|cleaned| - 1];
      if c != "" {
        ExcludeOfShape(c);
      }
    }
  }

  /** Every exclusion carries the exclusion magic, has a pattern after it
      and does not end in `/`. */
  lemma ExcludesShape(patterns: seq<string>)
    ensures forall i :: 0 <= i < |Excludes(patterns)| ==> IsExclude(Excludes(patterns)[i])
  {
    TranslatedShape(CleanAll(patterns));
  }

  lemma {:induction false} TranslatedAppend(a: seq<string>, b: seq<string>)
    ensures Translated(a + b) == Translated(a) + Translated(b)
    decreases |b|
  {
    if |b| > 0 {
      var b' := b[..|b| - 1];
      assert (a + b)[..|a + b| - 1] == a + b';
      TranslatedAppend(a, b');
    } else {
      assert a + b == a;
    }
  }

  /** Translating commutes with concatenation: outputs keep the input order. */
  lemma ExcludesAppend(a: seq<string>, b: seq<string>)
    ensures Excludes(a + b) == Excludes(a) + Excludes(b)
  {
    assert CleanAll(a + b) == CleanAll(a) + CleanAll(b);
    TranslatedAppend(CleanAll(a), CleanAll(b));
  }

  lemma {:induction false} TranslatedMembers(cleaned: seq<string>, e: string)
    ensures e in Translated(cleaned) <==> exists i :: 0 <= i < |cleaned| && cleaned[i] != "" && e == ExcludeOf(cleaned[i])
    decreases |cleaned|
  {
    if |cleaned| > 0 {
      var init := cleaned[..|cleaned| - 1];
      TranslatedMembers(init, e);
      assert forall i :: 0 <= i < |init| ==> init[i] == cleaned[i];
    }
  }

  /** `pattern` translates to the exclusion `e`. */
  predicate Yields(pattern: string, e: string) {
    Clean(pattern) != "" && e == ExcludeOf(Clean(pattern))
  }

  /** An exclusion is produced exactly for each pattern that does not clean
      to nothing. */
  lemma ExcludesMembers(patterns: seq<string>, e: string)
    ensures e in Excludes(patterns) <==> exists i :: 0 <= i < |patterns| && Yields(patterns[i], e)
  {
    var cs := CleanAll(patterns);
    TranslatedMembers(cs, e);
    assert forall i :: 0 <= i < |patterns| ==> (Yields(patterns[i], e) <==> cs[i] != "" && e == ExcludeOf(cs[i]));
  }

  /** `buildPathspecExcludes`. */
  method BuildPathspecExcludes(patterns: seq<string>) returns (excludes: seq<string>)
    ensures excludes == Excludes(patterns)
  {
    ghost var cs := CleanAll(patterns);
    excludes := [];
    for k := 0 to |patterns|
      invariant excludes == Translated(cs[..k])
    {
      var p := Trim(patterns[k]);
      p := TrimPrefix(p, "./");
      p := TrimPrefix(p, "/");
      assert Translated(cs[..k + 1]) == Translated(cs[..k]) + (if p == "" then [] else [ExcludeOf(p)]) by {
        assert p == cs[k];
        assert cs[..k + 1][..k] == cs[..k];
      }
      if p == "" {
        continue;
      }
      if HasSuffix(p, "/") {
        p := p + "**";
      }
      excludes := excludes + [ExcludeMagic + p];
    }
    assert cs[..|patterns|] == cs;
  }

  /** A pattern with nothing to trim or strip that names files rather than
      a directory. */
  predicate Plain(p: string) {
    p != [] && !IsSpace(p[0]) && !IsSpace(p[|p| - 1]) && p[0] != '.' && p[0] != '/' && p[|p| - 1] != '/'
  }

  /** A plain pattern is its own cleaned form. */
  lemma CleanPlain(p: string)
    requires Plain(p)
    ensures Clean(p) == p
  {
    TrimNoop(p);
    assert !HasPrefix(p, "./") by { assert "./"[0] == '.'; }
    assert !HasPrefix(p, "/") by { assert "/"[0] == '/'; }
  }

  lemma {:induction false} TranslatedPlain(cleaned: seq<string>)
    requires forall i :: 0 <= i < |cleaned| ==> Plain(cleaned[i])
    ensures |Translated(cleaned)| == |cleaned|
    ensures forall i :: 0 <= i < |cleaned| ==> Translated(cleaned)[i] == ExcludeMagic + cleaned[i]
    decreases |cleaned|
  {
    if |cleaned| > 0 {
      var init := cleaned[..|cleaned| - 1];
      TranslatedPlain(init);
      var c := cleaned[|cleaned| - 1];
      assert !HasSuffix(c, "/");
    }
  }

  /** Plain patterns translate one to one into exclusions, in order. */
  lemma PlainExcludes(patterns: seq<string>)
    requires forall i :: 0 <= i < |patterns| ==> Plain(patterns[i])
    ensures |Excludes(patterns)| == |patterns|
    ensures forall i :: 0 <= i < |patterns| ==> Excludes(patterns)[i] == ExcludeMagic + patterns[i]
  {
    forall i | 0 <= i < |patterns| {
      CleanPlain(patterns[i]);
    }
    assert CleanAll(patterns) == patterns;
    TranslatedPlain(patterns);
  }

  /** The always-ignored patterns are plain, so each gives its own
      exclusion and the tracked diff always carries a pathspec. */
  lemma AlwaysIgnoredPlain()
    ensures |AlwaysIgnoredPatterns| == 2
    ensures forall i :: 0 <= i < |AlwaysIgnoredPatterns| ==> Plain(AlwaysIgnoredPatterns[i])
  {
    var ps := AlwaysIgnoredPatterns;
    assert ps[0][0] == '*' && ps[0][|ps[0]| - 1] == 'n';
    assert ps[1][0] == '*' && ps[1][|ps[1]| - 1] == 'l';
  }

  /** Each line trimmed. */
  function TrimAll(lines: seq<string>): (r: seq<string>)
    ensures |r| == |lines| && forall i :: 0 <= i < |r| ==> r[i] == Trim(lines[i])
  {
    seq(|lines|, i requires 0 <= i < |lines| => Trim(lines[i]))
  }

  /** The trimmed lines that are neither blank nor `#` comments. */
  function Kept(trimmed: seq<string>): (r: seq<string>)
    ensures |r| <= |trimmed|
    ensures forall i :: 0 <= i < |r| ==> r[i] != "" && !HasPrefix(r[i], "#")
    decreases |trimmed|
  {
    if |trimmed| == 0 then []
    else
      var r := Kept(trimmed[..|trimmed| - 1]);
      var line := trimmed[|trimmed| - 1];
      if line == "" || HasPrefix(line, "#") then r else r + [line]
  }

  lemma {:induction false} KeptMembers(trimmed: seq<string>, p: string)
    ensures p in Kept(trimmed) <==> p != "" && !HasPrefix(p, "#") && p in trimmed
    decreases |trimmed|
  {
    if |trimmed| > 0 {
      var init := trimmed[..|trimmed| - 1];
      KeptMembers(init, p);
      assert trimmed == init + [trimmed[|trimmed| - 1]];
    }
  }

  /** The patterns an ignore file contributes: its trimmed lines, without
      blank lines and `#` comments, in file order. */
  function IgnoreFilePatterns(lines: seq<string>): (r: seq<string>)
    ensures |r| <= |lines|
    ensures forall i :: 0 <= i < |r| ==> r[i] != "" && !HasPrefix(r[i], "#")
  {
    Kept(TrimAll(lines))
  }

  /** A pattern is taken from the file exactly when some line trims to it
      and it is neither empty nor a comment. */
  lemma IgnoreFileMembers(lines: seq<string>, p: string)
    ensures p in IgnoreFilePatterns(lines) <==>
            p != "" && !HasPrefix(p, "#") && exists i :: 0 <= i < |lines| && Trim(lines[i]) == p
  {
    var ts := TrimAll(lines);
    KeptMembers(ts, p);
    assert p in ts <==> exists i :: 0 <= i < |lines| && Trim(lines[i]) == p by {
      if p in ts {
        var i :| 0 <= i < |ts| && ts[i] == p;
      }
    }
  }

  /** The line loop of `configureRFAIgnore`. */
  method ReadPatterns(lines: seq<string>) returns (patterns: seq<string>)
    ensures patterns == IgnoreFilePatterns(lines)
  {
    ghost var ts := TrimAll(lines);
    patterns := [];
    for k := 0 to |lines|
      invariant patterns == Kept(ts[..k])
    {
      assert ts[..k + 1][..k] == ts[..k];
      var line := Trim(lines[k]);
      if line == "" || HasPrefix(line, "#") {
        continue;
      }
      patterns := patterns + [line];
    }
    assert ts[..|lines|] == ts;
  }

  /** What reading the ignore file gave: no such file, an error opening or
      reading it, or its lines. */
  datatype ReadOutcome =
    | Missing
    | OpenFailed(openError: string)
    | ReadFailed(readError: string)
    | Lines(lines: seq<string>)

  /** `ls-files` flags excluding each pattern in turn. */
  function ExcludeFlags(patterns: seq<string>): seq<string>
    decreases |patterns|
  {
    if |patterns| == 0 then []
    else ExcludeFlags(patterns[..|patterns| - 1]) + ["--exclude", patterns[|patterns| - 1]]
  }

  /** The flags come in pairs, `--exclude` then the pattern, in order. */
  lemma {:induction false} ExcludeFlagsPairs(patterns: seq<string>)
    ensures |ExcludeFlags(patterns)| == 2 * |patterns|
    ensures forall i :: 0 <= i < |patterns| ==>
              ExcludeFlags(patterns)[2 * i] == "--exclude" && ExcludeFlags(patterns)[2 * i + 1] == patterns[i]
    decreases |patterns|
  {
    if |patterns| > 0 {
      var init := patterns[..|patterns| - 1];
      ExcludeFlagsPairs(init);
      var flags, prev := ExcludeFlags(patterns), ExcludeFlags(init);
      assert forall i :: 0 <= i < |init| ==> flags[2 * i] == prev[2 * i] && flags[2 * i + 1] == prev[2 * i + 1];
    }
  }

  /** The settings the server keeps between calls: the patterns always left
      out, the exclusions taken from the ignore file and that file's path
      (empty when none). */
  class IgnoreSettings {
    var alwaysIgnored: seq<string>
    var pathspecExcludes: seq<string>
    var excludeFile: string

    ghost predicate Valid()
      reads this
    {
      forall i :: 0 <= i < |pathspecExcludes| ==> IsExclude(pathspecExcludes[i])
    }

    constructor ()
      ensures Valid()
      ensures alwaysIgnored == AlwaysIgnoredPatterns && pathspecExcludes == [] && excludeFile == ""
    {
      alwaysIgnored := AlwaysIgnoredPatterns;
      pathspecExcludes := [];
      excludeFile := "";
    }

    /** `configureRFAIgnore`. A missing file clears both ignore-file
        settings and counts 0; a failure to open or read it is returned and
        changes nothing; otherwise the file's patterns are counted and
        translated, and the file is remembered only when it gave at least
        one pattern. */
    method Configure(path: string, read: ReadOutcome) returns (count: nat, err: Option<string>)
      requires Valid()
      modifies this
      ensures Valid() && alwaysIgnored == old(alwaysIgnored)
      ensures read.Missing? ==> count == 0 && err == None && pathspecExcludes == [] && excludeFile == ""
      ensures read.OpenFailed? ==>
                && count == 0 && err == Some("open " + path + ": " + read.openError)
                && pathspecExcludes == old(pathspecExcludes) && excludeFile == old(excludeFile)
      ensures read.ReadFailed? ==>
                && count == 0 && err == Some("read " + path + ": " + read.readError)
                && pathspecExcludes == old(pathspecExcludes) && excludeFile == old(excludeFile)
      ensures read.Lines? ==>
                var patterns := IgnoreFilePatterns(read.lines);
                && err == None && count == |patterns|
                && pathspecExcludes == Excludes(patterns)
                && excludeFile == (if count > 0 then path else "")
    {
      match read
      case Missing =>
        pathspecExcludes := [];
        excludeFile := "";
        return 0, None;
      case OpenFailed(e) =>
        return 0, Some("open " + path + ": " + e);
      case ReadFailed(e) =>
        return 0, Some("read " + path + ": " + e);
      case Lines(lines) =>
        count := Load(path, lines);
        return count, None;
    }

    /** The successful end of `configureRFAIgnore`. */
    method Load(path: string, lines: seq<string>) returns (count: nat)
      modifies this
      ensures Valid() && alwaysIgnored == old(alwaysIgnored)
      ensures var patterns := IgnoreFilePatterns(lines);
              && count == |patterns|
              && pathspecExcludes == Excludes(patterns)
              && excludeFile == (if count > 0 then path else "")
    {
      var patterns := ReadPatterns(lines);
      var excludes := BuildPathspecExcludes(patterns);
      var file := if |patterns| > 0 then path else "";
      pathspecExcludes, excludeFile := excludes, file;
      count := |patterns|;
      assert Valid() by {
        ExcludesShape(patterns);
      }
    }

    /** `trackedDiffArgs`: `git diff HEAD`, restricted, when there is any
        exclusion, to the work tree minus the always-ignored patterns and
        then the ignore file's patterns. */
    method TrackedDiffArgs() returns (args: seq<string>)
      requires Valid()
      ensures var excludes := Excludes(alwaysIgnored) + pathspecExcludes;
              if excludes == [] then args == ["diff", "HEAD"]
              else args == ["diff", "HEAD", "--", "."] + excludes
      ensures forall i :: 4 <= i < |args| ==> IsExclude(args[i])
    {
      args := ["diff", "HEAD"];
      var always := BuildPathspecExcludes(alwaysIgnored);
      var excludes := always + pathspecExcludes;
      assert forall i :: 0 <= i < |excludes| ==> IsExclude(excludes[i]) by {
        ExcludesShape(alwaysIgnored);
      }
      if |excludes| == 0 {
        return;
      }
      ghost var base := args;
      args := args + ["--", "."];
      assert args == ["diff", "HEAD", "--", "."] by {
        assert base == ["diff", "HEAD"];
      }
      args := args + excludes;
    }

    /** `untrackedListArgs`: list untracked files that git does not ignore,
        excluding each always-ignored pattern and, when one is set, the
        patterns of the ignore file. */
    method UntrackedListArgs() returns (args: seq<string>)
      ensures args == ["ls-files", "--others", "--exclude-standard"] + ExcludeFlags(alwaysIgnored)
                      + (if excludeFile != "" then ["--exclude-from", excludeFile] else [])
      ensures |args| == 3 + 2 * |alwaysIgnored| + (if excludeFile != "" then 2 else 0)
      ensures forall i :: 0 <= i < |alwaysIgnored| ==> args[3 + 2 * i] == "--exclude" && args[4 + 2 * i] == alwaysIgnored[i]
    {
      args := ["ls-files", "--others", "--exclude-standard"];
      for k := 0 to |alwaysIgnored|
        invariant args == ["ls-files", "--others", "--exclude-standard"] + ExcludeFlags(alwaysIgnored[..k])
      {
        assert alwaysIgnored[..k + 1][..k] == alwaysIgnored[..k];
        args := args + ["--exclude", alwaysIgnored[k]];
      }
      assert alwaysIgnored[..|alwaysIgnored|] == alwaysIgnored;
      ExcludeFlagsPairs(alwaysIgnored);
      if excludeFile != "" {
        args := args + ["--exclude-from", excludeFile];
      }
    }
  }
}

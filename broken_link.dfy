/** The broken-link checker: runs the external link checker over the
    accepted documentation files' local copies and parses its report. The
    report names a file on a line of its own, and each broken link on a
    tab-indented line holding "ERROR" followed by a line with the reason.
    The process is not modelled: its combined output and whether it exited
    with an error are parameters. */
module BrokenLink {
  import opened Text
  import opened Replacing
  import opened Repo
  import opened Base

  /** The link checker's per-link timeout, in seconds. */
  const Timeout := "30"
  /** Links the link checker is told to skip. */
  const Exclusions := "/release|/download|localhost|127\\.[01]\\.[01]\\.[01]|example\\.com"
  /** `TrimLeft`'s cutset for the URL: the characters tab, space, E, R, O. */
  const ErrorCutset := "\t ERROR"

  /** One reported broken link, before formatting. */
  datatype Finding = Finding(file: string, url: string, detail: string)

  /** `<file>: <url>: <detail>`. */
  function Format(f: Finding): string {
    f.file + ": " + f.url + ": " + f.detail
  }

  function FormatAll(fs: seq<Finding>): (ws: seq<string>)
    ensures |ws| == |fs| && forall k :: 0 <= k < |fs| ==> ws[k] == Format(fs[k])
  {
    seq(|fs|, k requires 0 <= k < |fs| => Format(fs[k]))
  }

  /** A tab-indented line holding "ERROR": the first line of a finding. */
  predicate IsErrorLine(l: string) {
    l != [] && l[0] == '\t' && Contains(l, "ERROR")
  }

  /** A non-empty line not starting with a tab names the file that follows. */
  predicate IsHeader(l: string) {
    l != [] && l[0] != '\t'
  }

  /** Reasons that are dropped: timeouts, and lookups of local files. */
  predicate Suppressed(detail: string) {
    detail == "Timeout" || Contains(detail, "no such file") ||
    Contains(detail, "root directory is not specified")
  }

  /** The URL of an ERROR line: the line without its leading run of
      characters from the cutset. */
  function Url(l: string): string {
    TrimLeft(l, ErrorCutset)
  }

  function ErrorLineCount(lines: seq<string>): nat {
    if lines == [] then 0
    else (if IsErrorLine(lines[0]) then 1 else 0) + ErrorLineCount(lines[1..])
  }

  /** The parse of the remaining report `lines` when the current file name is
      `filename`. An ERROR line consumes the line after it as its reason,
      whatever that line looks like; an ERROR line with no line after it ends
      the parse. Every finding comes from its own ERROR line. */
  function ParseLinks(r: Replacer, lines: seq<string>, filename: string): (fs: seq<Finding>)
    ensures |fs| <= ErrorLineCount(lines)
    decreases |lines|
  {
    if lines == [] then []
    else
      var l := lines[0];
      if l == [] then ParseLinks(r, lines[1..], filename)
      else if l[0] != '\t' then ParseLinks(r, lines[1..], r.Replace(l))
      else if !Contains(l, "ERROR") then ParseLinks(r, lines[1..], filename)
      else if |lines| == 1 then []
      else
        var detail := TrimSpace(lines[1]);
        assert ErrorLineCount(lines) >= 1 + ErrorLineCount(lines[2..]) by {
          assert lines[1..][1..] == lines[2..];
        }
        Reported(filename, l, lines[1]) + ParseLinks(r, lines[2..], filename)
  }

  /** What an ERROR line `l` and its reason line `next` report under file name
      `fn`: nothing when the reason is suppressed, otherwise one finding. */
  function Reported(fn: string, l: string, next: string): (fs: seq<Finding>)
    ensures |fs| <= 1
    ensures fs != [] <==> !Suppressed(TrimSpace(next))
    ensures fs != [] ==> fs[0] == Finding(fn, Url(l), TrimSpace(next))
  {
    if Suppressed(TrimSpace(next)) then [] else [Finding(fn, Url(l), TrimSpace(next))]
  }

  /** One step of the parse at line `i`, for each kind of line. */
  lemma ParseAt(r: Replacer, lines: seq<string>, i: nat, fn: string)
    requires i < |lines|
    ensures var l := lines[i];
      (l == [] || (l[0] == '\t' && !Contains(l, "ERROR")) ==>
        ParseLinks(r, lines[i..], fn) == ParseLinks(r, lines[i + 1..], fn)) &&
      (IsHeader(l) ==> ParseLinks(r, lines[i..], fn) == ParseLinks(r, lines[i + 1..], r.Replace(l))) &&
      (IsErrorLine(l) && i + 1 == |lines| ==> ParseLinks(r, lines[i..], fn) == []) &&
      (IsErrorLine(l) && i + 1 < |lines| ==>
        ParseLinks(r, lines[i..], fn) == Reported(fn, l, lines[i + 1]) + ParseLinks(r, lines[i + 2..], fn))
  {
    assert lines[i..][0] == lines[i];
    assert lines[i..][1..] == lines[i + 1..];
    if i + 1 < |lines| {
      assert lines[i..][1] == lines[i + 1];
      assert lines[i..][2..] == lines[i + 2..];
    }
  }

  /** The warnings for the tool's combined output; `failed` says it exited
      with an error. */
  function LinkWarnings(r: Replacer, output: string, failed: bool): (ws: seq<string>)
    ensures !failed ==> ws == []
  {
    if failed then FormatAll(ParseLinks(r, Split(output), "")) else []
  }

  /** Finding `f` comes from the ERROR line at `j` and the reason line after it. */
  predicate FoundAt(lines: seq<string>, j: nat, f: Finding)
    requires j + 1 < |lines|
  {
    IsErrorLine(lines[j]) && f.url == Url(lines[j]) &&
    f.detail == TrimSpace(lines[j + 1]) && !Suppressed(f.detail)
  }

  /** Every finding is an ERROR line's URL with the trimmed line after it as
      reason, and that reason is neither a timeout nor a local-file lookup. */
  lemma {:induction false} FindingOrigin(r: Replacer, lines: seq<string>, filename: string, k: nat)
    requires k < |ParseLinks(r, lines, filename)|
    ensures exists j: nat :: j + 1 < |lines| && FoundAt(lines, j, ParseLinks(r, lines, filename)[k])
    decreases |lines|, 1
  {
    var fs := ParseLinks(r, lines, filename);
    var l := lines[0];
    if !IsErrorLine(l) {
      var fn := if IsHeader(l) then r.Replace(l) else filename;
      var tail := ParseLinks(r, lines[1..], fn);
      assert fs == tail;
      OriginInTail(r, lines, fn, k);
      var j: nat :| j + 1 < |lines| && FoundAt(lines, j, tail[k]);
      assert FoundAt(lines, j, fs[k]);
    } else {
      var head := Reported(filename, l, lines[1]);
      var tail := ParseLinks(r, lines[2..], filename);
      assert fs == head + tail;
      if k < |head| {
        assert fs[k] == head[0];
        assert FoundAt(lines, 0, fs[k]);
      } else {
        assert fs[k] == tail[k - |head|];
        OriginAfterPair(r, lines, filename, k - |head|);
      }
    }
  }

  /** `FindingOrigin` for a finding of the parse after the first two lines. */
  lemma {:induction false} OriginAfterPair(r: Replacer, lines: seq<string>, fn: string, k: nat)
    requires |lines| >= 2 && k < |ParseLinks(r, lines[2..], fn)|
    ensures exists j: nat :: j + 1 < |lines| && FoundAt(lines, j, ParseLinks(r, lines[2..], fn)[k])
    decreases |lines|, 0
  {
    var tail := ParseLinks(r, lines[2..], fn);
    FindingOrigin(r, lines[2..], fn, k);
    var j: nat :| j + 1 < |lines[2..]| && FoundAt(lines[2..], j, tail[k]);
    assert lines[2..][j] == lines[j + 2] && lines[2..][j + 1] == lines[j + 3];
    assert FoundAt(lines, j + 2, tail[k]);
  }

  /** `FindingOrigin` for a finding of the parse after the first line. */
  lemma {:induction false} OriginInTail(r: Replacer, lines: seq<string>, fn: string, k: nat)
    requires lines != [] && k < |ParseLinks(r, lines[1..], fn)|
    ensures exists j: nat :: j + 1 < |lines| && FoundAt(lines, j, ParseLinks(r, lines[1..], fn)[k])
    decreases |lines|, 0
  {
    var tail := ParseLinks(r, lines[1..], fn);
    FindingOrigin(r, lines[1..], fn, k);
    var j: nat :| j + 1 < |lines[1..]| && FoundAt(lines[1..], j, tail[k]);
    assert lines[1..][j] == lines[j + 1] && lines[1..][j + 1] == lines[j + 2];
    assert FoundAt(lines, j + 1, tail[k]);
  }

  /** A timeout never becomes a warning, and neither does a local-file lookup. */
  lemma NoSuppressedFinding(r: Replacer, lines: seq<string>, filename: string, k: nat)
    requires k < |ParseLinks(r, lines, filename)|
    ensures !Suppressed(ParseLinks(r, lines, filename)[k].detail)
  {
    FindingOrigin(r, lines, filename, k);
  }

  /** A report without any tab-indented ERROR line yields no warning. */
  lemma NoErrorLineNoWarning(r: Replacer, output: string)
    requires forall k :: 0 <= k < |Split(output)| ==> !IsErrorLine(Split(output)[k])
    ensures LinkWarnings(r, output, true) == []
  {
    NoErrorLines(Split(output));
  }

  lemma {:induction false} NoErrorLines(lines: seq<string>)
    requires forall k :: 0 <= k < |lines| ==> !IsErrorLine(lines[k])
    ensures ErrorLineCount(lines) == 0
  {
    if lines != [] {
      NoErrorLines(lines[1..]);
    }
  }

  /** A header line yields nothing and makes its replaced form the current
      file name. */
  lemma HeaderStep(r: Replacer, h: string, rest: seq<string>, fn: string)
    requires IsHeader(h)
    ensures ParseLinks(r, [h] + rest, fn) == ParseLinks(r, rest, r.Replace(h))
  {
    assert ([h] + rest)[1..] == rest;
    assert ([h] + rest)[0] == h;
  }

  /** An ERROR line and the line after it yield at most one finding, which
      keeps the current file name, and the parse resumes after the pair: the
      reason line is consumed whatever it looks like, so even a reason that
      has the shape of a file name does not change the current file. */
  lemma ErrorPairStep(r: Replacer, e: string, d: string, rest: seq<string>, fn: string)
    requires IsErrorLine(e)
    ensures ParseLinks(r, [e, d] + rest, fn) ==
      (if Suppressed(TrimSpace(d)) then [] else [Finding(fn, Url(e), TrimSpace(d))]) +
      ParseLinks(r, rest, fn)
  {
    assert ([e, d] + rest)[2..] == rest;
    assert ([e, d] + rest)[0] == e;
  }

  /** `\tERROR <u>` is an ERROR line whose URL is `u` when `u` starts outside the cutset. */
  lemma ErrorLine(l: string, u: string)
    requires l == "\tERROR " + u && u != [] && u[0] !in ErrorCutset
    ensures IsErrorLine(l) && Url(l) == u
  {
    var a := "\tERROR ";
    assert "ERROR" <= l[1..];
    assert forall i :: 0 <= i < |a| ==> a[i] in ErrorCutset;
    TrimLeftPrefix(a, u, ErrorCutset);
  }

  lemma NotSuppressed(d: string)
    requires |d| < 12 && d != "Timeout"
    ensures !Suppressed(d)
  {
    NotContainsLonger(d, "no such file");
    NotContainsLonger(d, "root directory is not specified");
  }

  /** The cutset strips characters, not the word: a URL that starts with
      E, R or O loses those letters too. */
  lemma UrlCutsetQuirk()
    ensures Url("\tERROR ROE.org") == ".org"
  {
    var a := "\tERROR ROE";
    assert forall i :: 0 <= i < |a| ==> a[i] in ErrorCutset;
    assert a + ".org" == "\tERROR ROE.org";
    TrimLeftPrefix(a, ".org", ErrorCutset);
  }

  /** The parse as written: the reason line is read without checking that
      there is one, which panics (`None`) when the last line is an ERROR
      line. */
  function ParseLinksAsWritten(r: Replacer, lines: seq<string>, filename: string): Option<seq<Finding>>
    decreases |lines|
  {
    if lines == [] then Some([])
    else
      var l := lines[0];
      if l == [] then ParseLinksAsWritten(r, lines[1..], filename)
      else if l[0] != '\t' then ParseLinksAsWritten(r, lines[1..], r.Replace(l))
      else if !Contains(l, "ERROR") then ParseLinksAsWritten(r, lines[1..], filename)
      else if |lines| == 1 then None
      else
        var detail := TrimSpace(lines[1]);
        match ParseLinksAsWritten(r, lines[2..], filename)
        case None => None
        case Some(rest) =>
          Some((if Suppressed(detail) then [] else [Finding(filename, Url(l), detail)]) + rest)
  }

  /** Where the written parse does not panic it agrees with `ParseLinks`, and
      it panics only when the report ends with an ERROR line. */
  lemma {:induction false} AsWrittenAgrees(r: Replacer, lines: seq<string>, filename: string)
    ensures ParseLinksAsWritten(r, lines, filename) == None ||
            ParseLinksAsWritten(r, lines, filename) == Some(ParseLinks(r, lines, filename))
    ensures ParseLinksAsWritten(r, lines, filename) == None ==>
            lines != [] && IsErrorLine(lines[|lines| - 1])
    decreases |lines|
  {
    if lines != [] {
      var l := lines[0];
      if l == [] || l[0] != '\t' || !Contains(l, "ERROR") {
        var fn := if l == [] || l[0] == '\t' then filename else r.Replace(l);
        AsWrittenAgrees(r, lines[1..], fn);
        assert lines[1..] != [] ==> lines[1..][|lines[1..]| - 1] == lines[|lines| - 1];
      } else if |lines| > 1 {
        AsWrittenAgrees(r, lines[2..], filename);
        assert lines[2..] != [] ==> lines[2..][|lines[2..]| - 1] == lines[|lines| - 1];
      }
    }
  }

  /** A report that ends in an ERROR line without a trailing newline makes
      the written parse panic; the corrected parse reports nothing for it. */
  lemma AsWrittenPanics()
    ensures Split("a.md\n\tERROR x") == ["a.md", "\tERROR x"]
    ensures ParseLinksAsWritten(Replacer([]), Split("a.md\n\tERROR x"), "") == None
    ensures LinkWarnings(Replacer([]), "a.md\n\tERROR x", true) == []
  {
    assert Join(["a.md", "\tERROR x"]) == "a.md\n\tERROR x";
    SplitJoin(["a.md", "\tERROR x"]);
    ErrorLine("\tERROR x", "x");
  }

  /** Moving finding `f` from the front of the rest of the parse to the end
      of the findings so far: the whole is unchanged and one warning is added. */
  lemma AppendFinding(found: seq<Finding>, f: Finding, rest: seq<Finding>)
    ensures found + ([f] + rest) == (found + [f]) + rest
    ensures FormatAll(found + [f]) == FormatAll(found) + [Format(f)]
  {
  }

  class BrokenLinkChecker {
    const base: CheckerBase

    constructor()
      ensures fresh(base) && base.files == []
    {
      base := new CheckerBase();
    }

    /** Accepts documentation files only, asking for a local copy of each. */
    method PushFile(f: RepoFile)
      modifies base, f
      ensures IsDocumentationFile(f.baseName) ==>
        base.files == old(base.files) + [f] && f.require == old(f.require).(localCopy := true)
      ensures !IsDocumentationFile(f.baseName) ==>
        base.files == old(base.files) && f.require == old(f.require)
      ensures f.contents == old(f.contents)
    {
      if IsDocumentationFile(f.baseName) {
        f.require := f.require.(localCopy := true);
        base.AcceptFile(f);
      }
    }

    /** The link checker's command line: timeout, exclusions, then the temp names. */
    method Args() returns (args: seq<string>)
      ensures |args| == |base.files| + 4 && args[..4] == ["-t", Timeout, "-x", Exclusions]
      ensures forall i :: 0 <= i < |base.files| ==> args[i + 4] == base.files[i].tempName
    {
      var names := base.TempFilenames();
      args := ["-t", Timeout, "-x", Exclusions] + names;
    }

    /** The warnings for the tool's combined output and exit status. */
    method CheckFiles(output: string, failed: bool) returns (warnings: seq<string>)
      ensures warnings == LinkWarnings(ReplacerOf(Entries(base.files)), output, failed)
    {
      warnings := [];
      if failed {
        var replacer := base.FilenameReplacer();
        var lines := Split(output);
        var filename := "";
        ghost var found: seq<Finding> := [];
        var i := 0;
        assert lines[0..] == lines;
        while i < |lines|
          invariant 0 <= i <= |lines|
          invariant found + ParseLinks(replacer, lines[i..], filename) == ParseLinks(replacer, lines, "")
          invariant warnings == FormatAll(found)
        {
          var l := lines[i];
          ParseAt(replacer, lines, i, filename);
          if l == [] {
            i := i + 1;
          } else if l[0] != '\t' {
            filename := replacer.Replace(l);
            i := i + 1;
          } else if !Contains(l, "ERROR") {
            i := i + 1;
          } else {
            if i + 1 == |lines| {
              // No reason line follows: nothing more can be reported.
              break;
            }
            var url := TrimLeft(l, ErrorCutset);
            var detail := TrimSpace(lines[i + 1]);
            ghost var rest := ParseLinks(replacer, lines[i + 2..], filename);
            if detail == "Timeout" {
              assert Reported(filename, l, lines[i + 1]) + rest == rest;
            } else if Contains(detail, "no such file") || Contains(detail, "root directory is not specified") {
              assert Reported(filename, l, lines[i + 1]) + rest == rest;
            } else {
              var f := Finding(filename, url, detail);
              assert Reported(filename, l, lines[i + 1]) == [f];
              AppendFinding(found, f, rest);
              warnings := warnings + [Format(f)];
              found := found + [f];
            }
            i := i + 2;
          }
        }
        assert found == ParseLinks(replacer, lines, "") by {
          assert found + [] == found;
        }
      }
    }
  }
}

/** The misspelling checker: runs the external spell checker over the
    accepted documentation files' local copies and reports each non-empty
    line it prints, with temp names turned back into original names. The
    process itself is not modelled: its combined output and whether it
    exited with an error are parameters. */
module Misspell {
  import opened Text
  import opened Replacing
  import opened Repo
  import opened Base

  /** The non-empty lines, in order. */
  function NonEmpty(lines: seq<string>): (r: seq<string>)
    ensures |r| <= |lines|
    ensures forall k :: 0 <= k < |r| ==> r[k] != []
    ensures forall l :: l in r <==> l in lines && l != []
  {
    if lines == [] then []
    else
      var init := NonEmpty(lines[..|lines| - 1]);
      var l := lines[|lines| - 1];
      assert lines == lines[..|lines| - 1] + [l];
      if l == [] then init else init + [l]
  }

  /** Keeping the non-empty lines of `a + b` keeps those of `a`, then those
      of `b`: the kept lines stay in order and each keeps its multiplicity. */
  lemma {:induction false} NonEmptyAppend(a: seq<string>, b: seq<string>)
    ensures NonEmpty(a + b) == NonEmpty(a) + NonEmpty(b)
    decreases |b|
  {
    if b == [] {
      assert a + b == a;
    } else {
      var b' := b[..|b| - 1];
      assert (a + b)[..|a + b| - 1] == a + b';
      assert (a + b)[|a + b| - 1] == b[|b| - 1];
      NonEmptyAppend(a, b');
    }
  }

  /** One line is kept exactly when it is not empty. */
  lemma NonEmptyLine(l: string)
    ensures NonEmpty([l]) == (if l == [] then [] else [l])
  {
    assert [l][..0] == [];
  }

  /** The loop of `CheckFiles` over the output lines: skip empty lines,
      report the others through the replacer. The result is one warning per
      non-empty line, in output order. */
  function ReplaceLines(r: Replacer, lines: seq<string>): (ws: seq<string>)
    ensures |ws| == |NonEmpty(lines)|
    ensures forall k :: 0 <= k < |ws| ==> ws[k] == r.Replace(NonEmpty(lines)[k])
  {
    if lines == [] then []
    else
      var init := ReplaceLines(r, lines[..|lines| - 1]);
      var l := lines[|lines| - 1];
      if l == [] then init else init + [r.Replace(l)]
  }

  /** The warnings for tool output `output`; `failed` says the tool exited
      with an error. A successful run yields nothing; a failed one yields one
      warning per non-empty output line, in order, each being that line passed
      through the replacer. */
  function MisspellWarnings(r: Replacer, output: string, failed: bool): (ws: seq<string>)
    ensures !failed ==> ws == []
    ensures failed ==> |ws| == |NonEmpty(Split(output))|
    ensures failed ==> forall k :: 0 <= k < |ws| ==> ws[k] == r.Replace(NonEmpty(Split(output))[k])
  {
    if failed then ReplaceLines(r, Split(output)) else []
  }

  /** An output line that mentions no accepted temp name is reported as it is. */
  lemma {:induction false} LineWithoutTempNameUnchanged(es: seq<Entry>, output: string, k: nat)
    requires k < |NonEmpty(Split(output))|
    requires forall i :: 0 <= i < |es| ==> !Contains(NonEmpty(Split(output))[k], es[i].tempName)
    ensures MisspellWarnings(ReplacerOf(es), output, true)[k] == NonEmpty(Split(output))[k]
  {
    var r := ReplacerOf(es);
    ReplaceUnchanged(r, NonEmpty(Split(output))[k]);
  }

  /** A line that starts with accepted file `i`'s temp name reports that
      file's original name in its place, when every temp name is non-empty
      and no temp name of a file accepted earlier also starts the line (the
      replacer tries the pairs in acceptance order). */
  lemma LeadingTempNameReplaced(es: seq<Entry>, i: nat, rest: string)
    requires i < |es| && forall j :: 0 <= j < |es| ==> es[j].tempName != []
    requires forall j :: 0 <= j < i ==> !(es[j].tempName <= es[i].tempName + rest)
    ensures ReplacerOf(es).Replace(es[i].tempName + rest) == es[i].origName + ReplacerOf(es).Replace(rest)
  {
    var r := ReplacerOf(es);
    assert r.pairs[i] == (es[i].tempName, es[i].origName);
    assert [] + r.pairs[i].0 + rest == es[i].tempName + rest;
    ReplaceLeftmost(r, [], i, rest);
  }

  class MisspellChecker {
    const base: CheckerBase

    constructor()
      ensures fresh(base) && base.files == []
    {
      base := new CheckerBase();
    }

    /** Accepts documentation files only, asking for a local copy of each. */
    method PushFile(f: RepoFile)
      modifies base, f
      ensures IsDocumentationFile(f.baseName) ==>
        base.files == old(base.files) + [f] && f.require == old(f.require).(localCopy := true)
      ensures !IsDocumentationFile(f.baseName) ==>
        base.files == old(base.files) && f.require == old(f.require)
      ensures f.contents == old(f.contents)
    {
      if IsDocumentationFile(f.baseName) {
        f.require := f.require.(localCopy := true);
        base.AcceptFile(f);
      }
    }

    /** The spell checker's command line: strict mode, then the temp names. */
    method Args() returns (args: seq<string>)
      ensures |args| == |base.files| + 2 && args[..2] == ["-error", "true"]
      ensures forall i :: 0 <= i < |base.files| ==> args[i + 2] == base.files[i].tempName
    {
      var names := base.TempFilenames();
      args := ["-error", "true"] + names;
    }

    /** The warnings for the tool's combined output and exit status. */
    method CheckFiles(output: string, failed: bool) returns (warnings: seq<string>)
      ensures warnings == MisspellWarnings(ReplacerOf(Entries(base.files)), output, failed)
    {
      warnings := [];
      if failed {
        var replacer := base.FilenameReplacer();
        var lines := Split(output);
        for i := 0 to |lines|
          invariant warnings == ReplaceLines(replacer, lines[..i])
        {
          var l := lines[i];
          assert lines[..i + 1][..i] == lines[..i];
          if l != [] {
            warnings := warnings + [replacer.Replace(l)];
          }
        }
        assert lines[..|lines|] == lines;
      }
    }
  }
}

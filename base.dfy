/** What every checker shares: the list of files it accepted, in order, and
    the helpers that derive the tools' arguments and the temp-to-original
    name replacer from that list. Go embeds this struct in each checker; here
    each checker holds one as its `base` field. */
module Base {
  import opened Text
  import opened Replacing
  import opened Repo

  /** Base names the documentation checkers accept start with one of these. */
  const DocPrefixes: seq<string> := ["README", "CONTRIBUTING", "TODO"]

  /** `^(?:README|CONTRIBUTING|TODO).*`: a case-sensitive prefix test. */
  predicate IsDocumentationFile(name: string) {
    "README" <= name || "CONTRIBUTING" <= name || "TODO" <= name
  }

  /** A name is a documentation file exactly when it is one of the three
      prefixes followed by any suffix, the empty one included. */
  lemma DocumentationFileIff(name: string)
    ensures IsDocumentationFile(name) <==>
      exists p, suffix :: p in DocPrefixes && name == p + suffix
  {
    if IsDocumentationFile(name) {
      var p := if "README" <= name then "README" else if "CONTRIBUTING" <= name then "CONTRIBUTING" else "TODO";
      assert p in DocPrefixes && name == p + name[|p|..];
    }
    if exists p, suffix :: p in DocPrefixes && name == p + suffix {
      var p, suffix :| p in DocPrefixes && name == p + suffix;
      assert p <= name;
    }
  }

  /** Matching is case-sensitive. */
  lemma DocumentationFileCaseSensitive()
    ensures IsDocumentationFile("README.md") && IsDocumentationFile("TODO")
    ensures IsDocumentationFile("CONTRIBUTING-guide.txt")
    ensures !IsDocumentationFile("readme.md") && !IsDocumentationFile("docs/README.md")
  {
    assert "readme.md"[0] == 'r' && "docs/README.md"[0] == 'd';
  }

  /** The replacer built from `es`: each temp name to its original name, in
      acceptance order. */
  function ReplacerOf(es: seq<Entry>): Replacer {
    Replacer(seq(|es|, i requires 0 <= i < |es| => (es[i].tempName, es[i].origName)))
  }

  class CheckerBase {
    /** The accepted files, in the order they were pushed. */
    var files: seq<RepoFile>

    constructor()
      ensures files == []
    {
      files := [];
    }

    /** Forgets every accepted file; a second `Reset` changes nothing more. */
    method Reset()
      modifies this
      ensures files == []
    {
      files := [];
    }

    /** The default `PushFile`: accepts every file offered. */
    method PushFile(f: RepoFile)
      modifies this
      ensures files == old(files) + [f]
    {
      AcceptFile(f);
    }

    /** Appends one file at the end, keeping earlier files in order. */
    method AcceptFile(f: RepoFile)
      modifies this
      ensures files == old(files) + [f]
    {
      files := files + [f];
    }

    /** The accepted files' temp names, one per file, in order. */
    method TempFilenames() returns (names: seq<string>)
      ensures |names| == |files|
      ensures forall i :: 0 <= i < |files| ==> names[i] == files[i].tempName
    {
      var a := new string[|files|];
      for i := 0 to |files|
        invariant forall k :: 0 <= k < i ==> a[k] == files[k].tempName
      {
        a[i] := files[i].tempName;
      }
      names := a[..];
    }

    /** The replacer mapping every accepted temp name back to its original
        name, pairs in acceptance order. */
    method FilenameReplacer() returns (r: Replacer)
      ensures |r.pairs| == |files|
      ensures forall i :: 0 <= i < |files| ==> r.pairs[i] == (files[i].tempName, files[i].origName)
      ensures r == ReplacerOf(Entries(files))
    {
      var oldnew: seq<(string, string)> := [];
      for i := 0 to |files|
        invariant |oldnew| == i
        invariant forall k :: 0 <= k < i ==> oldnew[k] == (files[k].tempName, files[k].origName)
      {
        oldnew := oldnew + [(files[i].tempName, files[i].origName)];
      }
      r := Replacer(oldnew);
      assert r.pairs == ReplacerOf(Entries(files)).pairs;
    }
  }
}

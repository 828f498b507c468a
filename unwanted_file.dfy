/** The unwanted-file checker: accepts every file offered and reports each
    one whose base name looks like an editor's or an operating system's
    leftover. The six patterns are anchored regular expressions; each is
    written out here as a predicate on the name. */
module Unwanted {
  import opened Text
  import opened Repo
  import opened Base

  /** The kinds of unwanted file, one per pattern. */
  datatype Kind = VimSwap | EmacsAutosave | EmacsBackup | EmacsLock | MacSys | WindowsSys

  /** The kind's name as it appears in a warning. */
  function Label(k: Kind): string {
    match k
    case VimSwap => "Vim swap"
    case EmacsAutosave => "Emacs autosave"
    case EmacsBackup => "Emacs backup"
    case EmacsLock => "Emacs lock file"
    case MacSys => "Mac OS sys file"
    case WindowsSys => "Windows sys file"
  }

  /** The kinds in the order the patterns are declared. */
  const Kinds: seq<Kind> := [VimSwap, EmacsAutosave, EmacsBackup, EmacsLock, MacSys, WindowsSys]

  /** Whether base name `name` matches the kind's pattern. The patterns are
      anchored at both ends of the text and `.` does not match a newline, so
      a name holding a newline matches none of the `.*` patterns. */
  predicate Matches(k: Kind, name: string) {
    match k
    case VimSwap => '\n' !in name && HasSuffix(name, ".swp")
    case EmacsAutosave => '\n' !in name && |name| >= 2 && name[0] == '#' && name[|name| - 1] == '#'
    case EmacsBackup => '\n' !in name && HasSuffix(name, "~")
    case EmacsLock => '\n' !in name && ".#" <= name
    case MacSys => name == ".DS_STORE"
    case WindowsSys => name == "Thumbs.db"
  }

  /** `remove <kind> file: <original name>`. */
  function Warning(k: Kind, origName: string): string {
    "remove " + Label(k) + " file: " + origName
  }

  /** The warning kind `k` gives file `e`: one if its base name matches, else none. */
  function Hit(k: Kind, e: Entry): (ws: seq<string>)
    ensures ws == [] || ws == [Warning(k, e.origName)]
    ensures ws != [] <==> Matches(k, e.baseName)
  {
    if Matches(k, e.baseName) then [Warning(k, e.origName)] else []
  }

  /** The outputs of `f` on `xs`, concatenated in order: how the checker
      gathers warnings over kinds and over files. */
  function Collect<X>(xs: seq<X>, f: X -> seq<string>): seq<string> {
    if xs == [] then [] else Collect(xs[..|xs| - 1], f) + f(xs[|xs| - 1])
  }

  /** Gathering over one more element appends its outputs. */
  lemma CollectStep<X>(xs: seq<X>, j: nat, f: X -> seq<string>)
    requires j < |xs|
    ensures Collect(xs[..j + 1], f) == Collect(xs[..j], f) + f(xs[j])
  {
    assert xs[..j + 1][..j] == xs[..j];
  }

  /** Gathering over `a + b` is gathering over `a`, then over `b`. */
  lemma {:induction false} CollectAppend<X>(a: seq<X>, b: seq<X>, f: X -> seq<string>)
    ensures Collect(a + b, f) == Collect(a, f) + Collect(b, f)
    decreases |b|
  {
    if b != [] {
      var n := |b| - 1;
      var init := b[..n];
      CollectAppend(a, init, f);
      assert (a + b)[..|a + b| - 1] == a + init;
      assert (a + b)[|a + b| - 1] == b[n];
    } else {
      assert a + b == a;
    }
  }

  /** Removing one occurrence of `x` from two permutations leaves two
      permutations. */
  lemma RemoveOne<X>(init: seq<X>, x: X, ys: seq<X>, i: nat)
    requires multiset(init + [x]) == multiset(ys)
    requires i < |ys| && ys[i] == x
    ensures multiset(init) == multiset(ys[..i] + ys[i + 1..])
    ensures ys == ys[..i] + [x] + ys[i + 1..]
  {
    assert ys == ys[..i] + [x] + ys[i + 1..];
    assert multiset(ys) == multiset(ys[..i]) + multiset{x} + multiset(ys[i + 1..]);
    assert multiset(init + [x]) == multiset(init) + multiset{x};
    var m1, m2 := multiset(init), multiset(ys[..i] + ys[i + 1..]);
    assert m2 == multiset(ys[..i]) + multiset(ys[i + 1..]);
    forall z ensures m1[z] == m2[z] {
      assert (m1 + multiset{x})[z] == (m2 + multiset{x})[z];
    }
  }

  /** Gathering over `a`, then `x`, then `b`. */
  lemma CollectSplit<X>(a: seq<X>, x: X, b: seq<X>, f: X -> seq<string>)
    ensures Collect(a + [x] + b, f) == Collect(a, f) + f(x) + Collect(b, f)
  {
    CollectAppend(a, [x], f);
    CollectAppend(a + [x], b, f);
    assert [x][..0] == [];
  }

  /** Gathering in another order gives the same outputs, up to order. */
  lemma {:induction false} CollectPermutation<X>(xs: seq<X>, ys: seq<X>, f: X -> seq<string>)
    requires multiset(xs) == multiset(ys)
    ensures multiset(Collect(xs, f)) == multiset(Collect(ys, f))
    decreases |xs|
  {
    if xs == [] {
      assert |ys| == |multiset(ys)| == 0;
    } else {
      var x := xs[|xs| - 1];
      var init := xs[..|xs| - 1];
      assert xs == init + [x];
      assert x in multiset(ys);
      var i :| 0 <= i < |ys| && ys[i] == x;
      var a, b := ys[..i], ys[i + 1..];
      RemoveOne(init, x, ys, i);
      CollectPermutation(init, a + b, f);
      CollectAppend(a, b, f);
      CollectSplit(a, x, b, f);
      var wi, h, wa, wb := Collect(init, f), f(x), Collect(a, f), Collect(b, f);
      assert Collect(xs, f) == wi + h;
      assert Collect(ys, f) == wa + h + wb;
      assert multiset(wi) == multiset(wa) + multiset(wb);
    }
  }

  /** Element `xs[j]` yields `w`. */
  predicate Yields<X>(xs: seq<X>, f: X -> seq<string>, w: string, j: nat) {
    j < |xs| && w in f(xs[j])
  }

  /** An output is gathered exactly when some element yields it. */
  lemma {:induction false} CollectMembership<X>(xs: seq<X>, f: X -> seq<string>, w: string)
    ensures w in Collect(xs, f) <==> exists j: nat :: Yields(xs, f, w, j)
  {
    if xs != [] {
      var n := |xs| - 1;
      var init := xs[..n];
      var before, last := Collect(init, f), f(xs[n]);
      assert Collect(xs, f) == before + last;
      assert w in Collect(xs, f) <==> w in before || w in last;
      CollectMembership(init, f, w);
      if w in before {
        var j: nat :| Yields(init, f, w, j);
        assert Yields(xs, f, w, j);
      } else if w in last {
        assert Yields(xs, f, w, n);
      } else {
        forall j: nat | Yields(xs, f, w, j) ensures false {
          if j < n {
            assert Yields(init, f, w, j);
          }
        }
      }
    }
  }

  /** When every element yields `w` at most once and no two elements both
      yield it, `w` is gathered at most once. */
  lemma {:induction false} CollectOnce<X>(xs: seq<X>, f: X -> seq<string>, w: string)
    requires forall j :: 0 <= j < |xs| ==> multiset(f(xs[j]))[w] <= 1
    requires forall i, j :: 0 <= i < j < |xs| && w in f(xs[i]) ==> w !in f(xs[j])
    ensures multiset(Collect(xs, f))[w] <= 1
  {
    if xs != [] {
      var n := |xs| - 1;
      var init := xs[..n];
      var before, last := Collect(init, f), f(xs[n]);
      assert Collect(xs, f) == before + last;
      assert multiset(Collect(xs, f)) == multiset(before) + multiset(last);
      forall i, j | 0 <= i < j < |init| && w in f(init[i]) ensures w !in f(init[j]) {
        assert init[i] == xs[i] && init[j] == xs[j];
      }
      CollectOnce(init, f, w);
      if w in before && w in last {
        CollectMembership(init, f, w);
        var j: nat :| Yields(init, f, w, j);
        assert false;
      }
    }
  }

  /** The warning function of file `e`, kind by kind. */
  function HitsOf(e: Entry): Kind -> seq<string> {
    k => Hit(k, e)
  }

  /** The warnings for file `e` when the kinds are tried in the order `ks`. */
  function KindWarnings(ks: seq<Kind>, e: Entry): seq<string> {
    Collect(ks, HitsOf(e))
  }

  /** The warnings for one file. */
  function FileWarnings(e: Entry): seq<string> {
    KindWarnings(Kinds, e)
  }

  /** The warnings for the accepted files, file by file. */
  function UnwantedWarnings(es: seq<Entry>): seq<string> {
    Collect(es, FileWarnings)
  }

  /** Trying one more kind appends what it reports. */
  lemma KindStep(ks: seq<Kind>, j: nat, e: Entry)
    requires j < |ks|
    ensures KindWarnings(ks[..j + 1], e) == KindWarnings(ks[..j], e) + Hit(ks[j], e)
  {
    CollectStep(ks, j, HitsOf(e));
  }

  /** Gathering over one more element at the end. */
  lemma CollectSnoc<X>(xs: seq<X>, x: X, f: X -> seq<string>)
    ensures Collect(xs + [x], f) == Collect(xs, f) + f(x)
  {
    assert (xs + [x])[..|xs|] == xs;
  }

  /** A file's warnings, kind by kind in declaration order. */
  lemma FileWarningsUnfold(e: Entry)
    ensures FileWarnings(e) == Hit(VimSwap, e) + Hit(EmacsAutosave, e) + Hit(EmacsBackup, e) +
      Hit(EmacsLock, e) + Hit(MacSys, e) + Hit(WindowsSys, e)
  {
    var f := HitsOf(e);
    var k1 := [VimSwap];
    var k2 := k1 + [EmacsAutosave];
    var k3 := k2 + [EmacsBackup];
    var k4 := k3 + [EmacsLock];
    var k5 := k4 + [MacSys];
    var k6 := k5 + [WindowsSys];
    assert k6 == Kinds;
    CollectSnoc([], VimSwap, f);
    assert [] + [VimSwap] == k1;
    CollectSnoc(k1, EmacsAutosave, f);
    CollectSnoc(k2, EmacsBackup, f);
    CollectSnoc(k3, EmacsLock, f);
    CollectSnoc(k4, MacSys, f);
    CollectSnoc(k5, WindowsSys, f);
  }

  /** Go visits the pattern map in an unspecified order; whatever order is
      used, a file's warnings are the same up to order. */
  lemma KindOrderIrrelevant(ks: seq<Kind>, e: Entry)
    requires multiset(ks) == multiset(Kinds)
    ensures multiset(KindWarnings(ks, e)) == multiset(FileWarnings(e))
  {
    CollectPermutation(ks, Kinds, HitsOf(e));
  }

  lemma LabelInjective(k1: Kind, k2: Kind)
    requires Label(k1) == Label(k2)
    ensures k1 == k2
  {
    assert Label(k1)[0] == Label(k2)[0];
    assert |Label(k1)| == |Label(k2)|;
  }

  /** Different kinds give different warnings for the same file. */
  lemma WarningInjective(k1: Kind, k2: Kind, origName: string)
    requires Warning(k1, origName) == Warning(k2, origName)
    ensures k1 == k2
  {
    var l1, l2 := Label(k1), Label(k2);
    var w := Warning(k1, origName);
    assert |l1| == |l2|;
    assert w == "remove " + (l1 + (" file: " + origName));
    assert w == "remove " + (l2 + (" file: " + origName));
    assert w[7..] == l1 + (" file: " + origName) == l2 + (" file: " + origName);
    assert l1 == w[7..][..|l1|] == l2;
    LabelInjective(k1, k2);
  }

  /** Kind `k` reports `w` for file `e`. */
  predicate Reports(k: Kind, e: Entry, w: string) {
    Matches(k, e.baseName) && w == Warning(k, e.origName)
  }

  /** No kind is listed twice. */
  predicate Distinct(ks: seq<Kind>) {
    forall i, j :: 0 <= i < j < |ks| ==> ks[i] != ks[j]
  }

  /** When no kind is tried twice, no warning is reported twice. */
  lemma KindWarningsOnce(ks: seq<Kind>, e: Entry, w: string)
    requires Distinct(ks)
    ensures multiset(KindWarnings(ks, e))[w] <= 1
  {
    var f := HitsOf(e);
    forall j | 0 <= j < |ks| ensures multiset(f(ks[j]))[w] <= 1 {
      assert f(ks[j]) == Hit(ks[j], e);
    }
    forall i, j | 0 <= i < j < |ks| && w in f(ks[i]) ensures w !in f(ks[j]) {
      if w in f(ks[j]) {
        assert f(ks[i]) == Hit(ks[i], e) && f(ks[j]) == Hit(ks[j], e);
        WarningInjective(ks[i], ks[j], e.origName);
      }
    }
    CollectOnce(ks, f, w);
  }

  /** The declared kinds are pairwise different. */
  lemma KindsDistinct()
    ensures Distinct(Kinds)
  {
  }

  /** Every kind is declared. */
  lemma KindDeclared(k: Kind) returns (j: nat)
    ensures j < |Kinds| && Kinds[j] == k
  {
    j := match k
      case VimSwap => 0 case EmacsAutosave => 1 case EmacsBackup => 2
      case EmacsLock => 3 case MacSys => 4 case WindowsSys => 5;
  }

  /** A file gets exactly one warning for each kind its base name matches,
      and no other warning. */
  lemma FileWarningsExactly(e: Entry, w: string)
    ensures multiset(FileWarnings(e))[w] <= 1
    ensures w in FileWarnings(e) <==> exists k :: Reports(k, e, w)
  {
    var f := HitsOf(e);
    KindsDistinct();
    KindWarningsOnce(Kinds, e, w);
    CollectMembership(Kinds, f, w);
    if w in FileWarnings(e) {
      var j: nat :| Yields(Kinds, f, w, j);
      var k := Kinds[j];
      assert f(k) == Hit(k, e);
      assert Reports(k, e, w);
    } else {
      forall k | Reports(k, e, w) ensures false {
        var j := KindDeclared(k);
        assert f(k) == Hit(k, e);
        assert Yields(Kinds, f, w, j);
      }
    }
  }

  /** A base name matches at most two patterns (a lock file whose name also
      ends like a swap file or a backup file), so a file gets at most two
      warnings. */
  lemma AtMostTwoKinds(e: Entry)
    ensures |FileWarnings(e)| <= 2
  {
    FileWarningsUnfold(e);
    var n := e.baseName;
    if n != [] {
      var c := n[|n| - 1];
      assert Matches(VimSwap, n) ==> c == ".swp"[3];
      assert Matches(EmacsBackup, n) ==> c == '~';
      assert Matches(MacSys, n) ==> c == 'E';
      assert Matches(WindowsSys, n) ==> c == 'b';
      assert Matches(EmacsAutosave, n) ==> !Matches(EmacsLock, n);
    }
  }

  /** The warnings of all files are the files' own warnings (which
      `FileWarningsExactly` characterises). */
  lemma UnwantedWarningsMembership(es: seq<Entry>, w: string)
    ensures w in UnwantedWarnings(es) <==> exists i :: 0 <= i < |es| && w in FileWarnings(es[i])
  {
    CollectMembership(es, FileWarnings, w);
    if exists i :: 0 <= i < |es| && w in FileWarnings(es[i]) {
      var i :| 0 <= i < |es| && w in FileWarnings(es[i]);
      assert Yields(es, FileWarnings, w, i);
    }
  }

  /** The files may be pushed in any order; whatever order is used, the
      warnings are the same up to order. */
  lemma FileOrderIrrelevant(es: seq<Entry>, fs: seq<Entry>)
    requires multiset(es) == multiset(fs)
    ensures multiset(UnwantedWarnings(es)) == multiset(UnwantedWarnings(fs))
  {
    CollectPermutation(es, fs, FileWarnings);
  }

  /** A Finder metadata file gets exactly the Mac OS warning. */
  lemma MacSysExample()
    ensures FileWarnings(Entry("t", "a/.DS_STORE", ".DS_STORE", "")) == [Warning(MacSys, "a/.DS_STORE")]
  {
    var e := Entry("t", "a/.DS_STORE", ".DS_STORE", "");
    FileWarningsUnfold(e);
    var n := ".DS_STORE";
    assert n[|n| - 1] == 'E' && n[1] == 'D';
    assert !HasSuffix(n, ".swp") by { assert n[|n| - 4..][3] == 'E'; }
    assert Hit(VimSwap, e) == [] && Hit(EmacsAutosave, e) == [] && Hit(EmacsBackup, e) == [];
    assert Hit(EmacsLock, e) == [] && Hit(WindowsSys, e) == [];
    assert Hit(MacSys, e) == [Warning(MacSys, "a/.DS_STORE")];
  }

  /** A lock file of a swap file gets two warnings, swap first. */
  lemma LockedSwapExample()
    ensures FileWarnings(Entry("t", ".#x.swp", ".#x.swp", "")) ==
      [Warning(VimSwap, ".#x.swp"), Warning(EmacsLock, ".#x.swp")]
  {
    var e := Entry("t", ".#x.swp", ".#x.swp", "");
    FileWarningsUnfold(e);
    var n := ".#x.swp";
    assert n[|n| - 1] == 'p' && n[0] == '.';
    assert n[|n| - 4..] == ".swp";
    assert Hit(VimSwap, e) == [Warning(VimSwap, ".#x.swp")];
    assert Hit(EmacsLock, e) == [Warning(EmacsLock, ".#x.swp")];
    assert Hit(EmacsAutosave, e) == [] && Hit(EmacsBackup, e) == [];
    assert Hit(MacSys, e) == [] && Hit(WindowsSys, e) == [];
  }

  /** An ordinary name gets no warning. */
  lemma OrdinaryNameExample()
    ensures FileWarnings(Entry("t", "notes.txt", "notes.txt", "")) == []
  {
    var e := Entry("t", "notes.txt", "notes.txt", "");
    FileWarningsUnfold(e);
    var n := "notes.txt";
    assert n[|n| - 1] == 't' && n[0] == 'n';
    assert !HasSuffix(n, ".swp") by { assert n[|n| - 4..][3] == 't'; }
    assert Hit(VimSwap, e) == [] && Hit(EmacsAutosave, e) == [] && Hit(EmacsBackup, e) == [];
    assert Hit(EmacsLock, e) == [] && Hit(MacSys, e) == [] && Hit(WindowsSys, e) == [];
  }

  class UnwantedFileChecker {
    const base: CheckerBase

    constructor()
      ensures fresh(base) && base.files == []
    {
      base := new CheckerBase();
    }

    /** The base `PushFile`: every file is accepted and nothing is requested. */
    method PushFile(f: RepoFile)
      modifies base
      ensures base.files == old(base.files) + [f]
    {
      base.PushFile(f);
    }

    /** One warning per accepted file and matching pattern, files in order. */
    method CheckFiles() returns (warnings: seq<string>)
      ensures warnings == UnwantedWarnings(Entries(base.files))
    {
      ghost var es := Entries(base.files);
      warnings := [];
      for i := 0 to |base.files|
        invariant warnings == UnwantedWarnings(es[..i])
      {
        var baseName, origName := base.files[i].baseName, base.files[i].origName;
        ghost var e := es[i];
        assert e.baseName == baseName && e.origName == origName;
        ghost var before := warnings;
        for j := 0 to |Kinds|
          invariant warnings == before + KindWarnings(Kinds[..j], e)
        {
          var kind := Kinds[j];
          KindStep(Kinds, j, e);
          AppendAssoc(before, KindWarnings(Kinds[..j], e), Hit(kind, e));
          if Matches(kind, baseName) {
            warnings := warnings + [Warning(kind, origName)];
          }
        }
        assert Kinds[..|Kinds|] == Kinds;
        FileStep(es, i);
      }
      assert es[..|es|] == es;
    }
  }

  lemma AppendAssoc(a: seq<string>, b: seq<string>, c: seq<string>)
    ensures a + b + c == a + (b + c)
  {
  }

  /** The warnings for one more file. */
  lemma FileStep(es: seq<Entry>, i: nat)
    requires i < |es|
    ensures UnwantedWarnings(es[..i + 1]) == UnwantedWarnings(es[..i]) + FileWarnings(es[i])
  {
    CollectStep(es, i, FileWarnings);
  }
}

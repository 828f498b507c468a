/** The sloppy-copyright checker: accepts the repository's licence file and
    reports it when its text still holds the template's placeholder notice,
    `copyright [(c) or ©] year[,] fullname`, in any letter case. The pattern
    is a case-insensitive alternation of three regular expressions; here it
    is a deterministic matcher, proved equal to a direct reading of the
    alternation. Every letter in the pattern folds only to its ASCII
    partner, so ASCII case folding is exact for it. */
module Sloppy {
  import opened Text
  import opened Repo
  import opened Base

  /** ASCII lower case. */
  function Lower(c: char): char {
    if 'A' <= c <= 'Z' then (c as int + 32) as char else c
  }

  /** `s` starts with the lower-case literal `lit`, ignoring case. */
  predicate FoldPrefix(s: string, lit: string) {
    |lit| <= |s| && forall i :: 0 <= i < |lit| ==> Lower(s[i]) == lit[i]
  }

  /** `s` with its leading `\s*` run removed. */
  function SkipSpaces(s: string): string {
    DropLeading(s, IsRegexSpace)
  }

  /** `year,?\s*fullname` at the start of `t`. A comma is taken when present:
      neither a space nor `f` can match it, so no other choice succeeds. */
  predicate YearFullname(t: string) {
    FoldPrefix(t, "year") &&
    var u := t[4..];
    var v := if u != [] && u[0] == ',' then u[1..] else u;
    FoldPrefix(SkipSpaces(v), "fullname")
  }

  /** The placeholder notice at the start of `s`, in one of its three forms. */
  predicate SloppyAt(s: string) {
    FoldPrefix(s, "copyright ") &&
    var t := s[10..];
    YearFullname(t) ||
    (FoldPrefix(t, "(c)") && YearFullname(SkipSpaces(t[3..]))) ||
    (t != [] && t[0] == '©' && YearFullname(SkipSpaces(t[1..])))
  }

  /** `MatchString`: the notice starts somewhere in `s`. */
  predicate ContainsSloppy(s: string)
    decreases |s|
  {
    SloppyAt(s) || (s != [] && ContainsSloppy(s[1..]))
  }

  /** `s[a..b]` is a run of `\s` characters. */
  predicate Spaces(s: string, a: nat, b: nat)
    requires a <= b <= |s|
  {
    forall i :: a <= i < b ==> IsRegexSpace(s[i])
  }

  /** `year`, then `c` commas (none or one), then `k` spaces, then
      `fullname`, at the start of `t`. */
  predicate YearFullnameWith(t: string, c: nat, k: nat) {
    c <= 1 && 4 + c + k <= |t| && FoldPrefix(t, "year") &&
    (c == 1 ==> t[4] == ',') && Spaces(t, 4 + c, 4 + c + k) &&
    FoldPrefix(t[4 + c + k..], "fullname")
  }

  /** The alternative `year,?\s*fullname` read directly: some choice of
      comma and run of spaces makes the rest line up. */
  ghost predicate YearFullnameRegex(t: string) {
    exists c: nat, k: nat :: YearFullnameWith(t, c, k)
  }

  /** `\s*` followed by `year,?\s*fullname`, read directly. */
  ghost predicate SpacedYearFullnameRegex(t: string) {
    exists k: nat :: k <= |t| && Spaces(t, 0, k) && YearFullnameRegex(t[k..])
  }

  /** The whole alternation, read directly, at the start of `s`. */
  ghost predicate SloppyRegexAt(s: string) {
    FoldPrefix(s, "copyright ") &&
    var t := s[10..];
    YearFullnameRegex(t) ||
    (FoldPrefix(t, "(c)") && SpacedYearFullnameRegex(t[3..])) ||
    (t != [] && t[0] == '©' && SpacedYearFullnameRegex(t[1..]))
  }

  /** Skipping a run of spaces and then a text that does not start with one
      lands at that text. */
  lemma SkipSpacesPrefix(t: string, k: nat)
    requires k <= |t| && Spaces(t, 0, k)
    requires t[k..] == [] || !IsRegexSpace(t[k])
    ensures SkipSpaces(t) == t[k..]
  {
    assert t == t[..k] + t[k..];
    DropLeadingPrefix(t[..k], t[k..], IsRegexSpace);
  }

  /** The deterministic reading of `year,?\s*fullname` is the regular one. */
  lemma YearFullnameIff(t: string)
    ensures YearFullname(t) <==> YearFullnameRegex(t)
  {
    if YearFullname(t) {
      YearFullnameWitness(t);
    }
    if YearFullnameRegex(t) {
      var c: nat, k: nat :| YearFullnameWith(t, c, k);
      YearFullnameFromWitness(t, c, k);
    }
  }

  /** A run of spaces inside a suffix is a run of spaces of the whole. */
  lemma SpacesShift(t: string, o: nat, k: nat)
    requires o + k <= |t| && Spaces(t[o..], 0, k)
    ensures Spaces(t, o, o + k)
  {
    forall i | o <= i < o + k
      ensures IsRegexSpace(t[i])
    {
      assert t[i] == t[o..][i - o];
    }
  }

  /** The choices the deterministic matcher makes are a witness. */
  lemma YearFullnameWitness(t: string)
    requires YearFullname(t)
    ensures YearFullnameRegex(t)
  {
    var u := t[4..];
    var c: nat := if u != [] && u[0] == ',' then 1 else 0;
    var v := t[4 + c..];
    assert v == u[c..];
    var r := SkipSpaces(v);
    var k: nat := |v| - |r|;
    assert Spaces(v, 0, k);
    SpacesShift(t, 4 + c, k);
    assert t[4 + c + k..] == r;
    assert YearFullnameWith(t, c, k);
  }

  /** Any witness leads the deterministic matcher to the same place. */
  lemma YearFullnameFromWitness(t: string, c: nat, k: nat)
    requires YearFullnameWith(t, c, k)
    ensures YearFullname(t)
  {
    var u := t[4..];
    assert Lower(t[4 + c + k]) == 'f';
    assert (u != [] && u[0] == ',') <==> c == 1;
    var v := u[c..];
    forall i | 0 <= i < k
      ensures IsRegexSpace(v[i])
    {
      assert v[i] == t[4 + c + i];
    }
    assert v[k..] == t[4 + c + k..];
    SkipSpacesPrefix(v, k);
  }

  /** The same for a leading `\s*`. */
  lemma SpacedYearFullnameIff(t: string)
    ensures YearFullname(SkipSpaces(t)) <==> SpacedYearFullnameRegex(t)
  {
    var r := SkipSpaces(t);
    var k0: nat := |t| - |r|;
    YearFullnameIff(r);
    assert t[k0..] == r;
    if YearFullname(r) {
      assert Spaces(t, 0, k0);
    }
    if SpacedYearFullnameRegex(t) {
      var k: nat :| k <= |t| && Spaces(t, 0, k) && YearFullnameRegex(t[k..]);
      YearFullnameIff(t[k..]);
      assert Lower(t[k..][0]) == 'y';
      SkipSpacesPrefix(t, k);
    }
  }

  /** The matcher at one position is the alternation read directly. */
  lemma SloppyAtIff(s: string)
    ensures SloppyAt(s) <==> SloppyRegexAt(s)
  {
    if FoldPrefix(s, "copyright ") {
      var t := s[10..];
      YearFullnameIff(t);
      if FoldPrefix(t, "(c)") {
        SpacedYearFullnameIff(t[3..]);
      }
      if t != [] {
        SpacedYearFullnameIff(t[1..]);
      }
    }
  }

  /** `MatchString` holds exactly when the alternation matches at some position. */
  lemma {:induction false} ContainsSloppyIff(s: string)
    ensures ContainsSloppy(s) <==> exists i :: 0 <= i <= |s| && SloppyRegexAt(s[i..])
    decreases |s|
  {
    SloppyAtIff(s);
    assert s[0..] == s;
    if s != [] {
      ContainsSloppyIff(s[1..]);
      assert forall i :: 1 <= i <= |s| ==> s[i..] == s[1..][i - 1..];
    }
  }

  /** A suffix of a suffix of `s` is a suffix of `s`. */
  lemma SuffixOfSuffix(s: string, i: nat, r: string)
    requires i <= |s| && |r| <= |s| - i && r == s[i..][|s| - i - |r|..]
    ensures r == s[|s| - |r|..]
  {
  }

  /** A notice matched at some position always has `year` after it. */
  lemma SloppyAtHasYear(s: string)
    requires SloppyAt(s)
    ensures exists j :: 0 <= j <= |s| && FoldPrefix(s[j..], "year")
  {
    var t := s[10..];
    if YearFullname(t) {
      assert FoldPrefix(s[10..], "year");
    } else {
      var i := if FoldPrefix(t, "(c)") && YearFullname(SkipSpaces(t[3..])) then 13 else 11;
      var r := SkipSpaces(s[i..]);
      assert s[i..] == t[i - 10..];
      SuffixOfSuffix(s, i, r);
      assert FoldPrefix(s[|s| - |r|..], "year");
    }
  }

  /** A licence whose placeholder year has been filled in, so that `year`
      appears nowhere in it in any case, is never reported. */
  lemma {:induction false} FilledInNotReported(s: string)
    requires forall j :: 0 <= j <= |s| ==> !FoldPrefix(s[j..], "year")
    ensures !ContainsSloppy(s)
    decreases |s|
  {
    if SloppyAt(s) {
      SloppyAtHasYear(s);
    }
    if s != [] {
      assert forall j :: 0 <= j <= |s[1..]| ==> s[1..][j..] == s[j + 1..];
      FilledInNotReported(s[1..]);
    }
  }

  /** `x` spells the lower-case literal `lit` in any letter case. */
  predicate Spells(x: string, lit: string) {
    |x| == |lit| && forall i :: 0 <= i < |x| ==> Lower(x[i]) == lit[i]
  }

  lemma FoldPrefixAppend(x: string, lit: string, rest: string)
    requires Spells(x, lit)
    ensures FoldPrefix(x + rest, lit)
    ensures (x + rest)[|x|..] == rest
  {
    forall i | 0 <= i < |lit| ensures Lower((x + rest)[i]) == lit[i] {
      assert (x + rest)[i] == x[i];
    }
  }

  /** `year`, a comma, one space and `fullname`, in any letter case. */
  lemma YearCommaFullname(y: string, f: string, rest: string)
    requires Spells(y, "year") && Spells(f, "fullname")
    ensures YearFullname(y + ", " + f + rest)
  {
    var t := y + ", " + f + rest;
    assert t == y + (", " + (f + rest));
    FoldPrefixAppend(y, "year", ", " + (f + rest));
    assert Spaces(t, 5, 6);
    FoldPrefixAppend(f, "fullname", rest);
    assert t[6..] == f + rest;
    assert YearFullnameWith(t, 1, 1);
    YearFullnameFromWitness(t, 1, 1);
  }

  /** `year`, one space and `fullname`, in any letter case. */
  lemma YearSpaceFullname(y: string, f: string, rest: string)
    requires Spells(y, "year") && Spells(f, "fullname")
    ensures YearFullname(y + " " + f + rest)
  {
    var t := y + " " + f + rest;
    assert t == y + (" " + (f + rest));
    FoldPrefixAppend(y, "year", " " + (f + rest));
    assert Spaces(t, 4, 5);
    FoldPrefixAppend(f, "fullname", rest);
    assert t[5..] == f + rest;
    assert YearFullnameWith(t, 0, 1);
    YearFullnameFromWitness(t, 0, 1);
  }

  /** `copyright (c) year, fullname`, in any letter case, at the start. */
  lemma ParenNoticeAt(c: string, p: string, y: string, f: string)
    requires Spells(c, "copyright ") && Spells(p, "(c)")
    requires Spells(y, "year") && Spells(f, "fullname")
    ensures SloppyAt(c + p + " " + y + ", " + f)
  {
    var r := y + ", " + f;
    var a := c + p + " " + y + ", " + f;
    assert a == c + (p + (" " + r));
    FoldPrefixAppend(c, "copyright ", p + (" " + r));
    FoldPrefixAppend(p, "(c)", " " + r);
    SkipSpacesPrefix(" " + r, 1);
    assert (" " + r)[1..] == r;
    YearCommaFullname(y, f, []);
    assert r + [] == r;
  }

  /** `copyright © year fullname`, in any letter case, at the start. */
  lemma SignNoticeAt(c: string, y: string, f: string)
    requires Spells(c, "copyright ")
    requires Spells(y, "year") && Spells(f, "fullname")
    ensures SloppyAt(c + "©" + " " + y + " " + f)
  {
    var r := y + " " + f;
    var b := c + "©" + " " + y + " " + f;
    assert b == c + (['©'] + (" " + r));
    FoldPrefixAppend(c, "copyright ", ['©'] + (" " + r));
    assert (['©'] + (" " + r))[1..] == " " + r;
    SkipSpacesPrefix(" " + r, 1);
    assert (" " + r)[1..] == r;
    YearSpaceFullname(y, f, []);
    assert r + [] == r;
  }

  /** The template's notice with `(c)` and a comma is reported. */
  lemma TemplateNoticeReported(a: string)
    requires a == "Copyright (c) year, fullname"
    ensures ContainsSloppy(a)
  {
    var c, p, y, f := "Copyright ", "(c)", "year", "fullname";
    assert Spells(c, "copyright ") && Spells(p, "(c)");
    assert Spells(y, "year") && Spells(f, "fullname");
    assert a == c + p + " " + y + ", " + f;
    ParenNoticeAt(c, p, y, f);
  }

  /** Letter case does not matter, and `©` may stand for `(c)`. */
  lemma UpperCaseNoticeReported(b: string)
    requires b == "COPYRIGHT © YEAR FULLNAME"
    ensures ContainsSloppy(b)
  {
    var c, y, f := "COPYRIGHT ", "YEAR", "FULLNAME";
    assert Spells(c, "copyright ");
    assert Spells(y, "year") && Spells(f, "fullname");
    assert b == c + "©" + " " + y + " " + f;
    SignNoticeAt(c, y, f);
  }

  /** Licence files are recognised by their exact path in the repository. */
  predicate IsLicense(origName: string) {
    origName == "LICENSE" || origName == "LICENSE.md" || origName == "LICENSE.txt"
  }

  /** `<original name>: license contains sloppy copyright`. */
  function Warning(origName: string): string {
    origName + ": license contains sloppy copyright"
  }

  /** The warnings for the accepted files, in file order. */
  function SloppyWarnings(es: seq<Entry>): (ws: seq<string>)
    ensures |ws| <= |es|
  {
    if es == [] then []
    else
      var e := es[|es| - 1];
      SloppyWarnings(es[..|es| - 1]) + (if ContainsSloppy(e.contents) then [Warning(e.origName)] else [])
  }

  /** The warnings for `a + b` are those for `a`, then those for `b`: each
      file's warning comes in file order. */
  lemma {:induction false} SloppyWarningsAppend(a: seq<Entry>, b: seq<Entry>)
    ensures SloppyWarnings(a + b) == SloppyWarnings(a) + SloppyWarnings(b)
    decreases |b|
  {
    if b == [] {
      assert a + b == a;
    } else {
      var b' := b[..|b| - 1];
      assert (a + b)[..|a + b| - 1] == a + b';
      assert (a + b)[|a + b| - 1] == b[|b| - 1];
      SloppyWarningsAppend(a, b');
    }
  }

  /** One file gives one warning naming it when its text holds the notice,
      and none otherwise. */
  lemma SloppyWarningsOne(e: Entry)
    ensures SloppyWarnings([e]) == (if ContainsSloppy(e.contents) then [Warning(e.origName)] else [])
  {
    assert [e][..0] == [];
  }

  /** Accepted file `i` holds the notice and `w` is its warning. */
  predicate ReportsFile(es: seq<Entry>, w: string, i: nat) {
    i < |es| && ContainsSloppy(es[i].contents) && w == Warning(es[i].origName)
  }

  /** A warning is given exactly for the accepted files whose text holds the
      notice. */
  lemma {:induction false} SloppyWarningsMembership(es: seq<Entry>, w: string)
    ensures w in SloppyWarnings(es) <==> exists i: nat :: ReportsFile(es, w, i)
  {
    if es != [] {
      var init := es[..|es| - 1];
      var last := es[|es| - 1];
      var tail := if ContainsSloppy(last.contents) then [Warning(last.origName)] else [];
      assert SloppyWarnings(es) == SloppyWarnings(init) + tail;
      SloppyWarningsMembership(init, w);
      if w in SloppyWarnings(es) {
        if w in SloppyWarnings(init) {
          var i: nat :| ReportsFile(init, w, i);
          assert init[i] == es[i];
          assert ReportsFile(es, w, i);
        } else {
          assert ReportsFile(es, w, |es| - 1);
        }
      }
      if exists i: nat :: ReportsFile(es, w, i) {
        var i: nat :| ReportsFile(es, w, i);
        if i < |es| - 1 {
          assert init[i] == es[i];
          assert ReportsFile(init, w, i);
        } else {
          assert w in tail;
        }
      }
    }
  }

  class SloppyCopyrightChecker {
    const base: CheckerBase

    constructor()
      ensures fresh(base) && base.files == []
    {
      base := new CheckerBase();
    }

    /** Accepts the licence file only, asking for its contents. */
    method PushFile(f: RepoFile)
      modifies base, f
      ensures IsLicense(f.origName) ==>
        base.files == old(base.files) + [f] && f.require == old(f.require).(contents := true)
      ensures !IsLicense(f.origName) ==>
        base.files == old(base.files) && f.require == old(f.require)
      ensures f.contents == old(f.contents)
    {
      if f.origName == "LICENSE" || f.origName == "LICENSE.md" || f.origName == "LICENSE.txt" {
        f.require := f.require.(contents := true);
        base.AcceptFile(f);
      }
    }

    /** One warning per accepted file whose text holds the notice, in file order. */
    method CheckFiles() returns (warnings: seq<string>)
      ensures warnings == SloppyWarnings(Entries(base.files))
    {
      ghost var es := Entries(base.files);
      warnings := [];
      for i := 0 to |base.files|
        invariant warnings == SloppyWarnings(es[..i])
      {
        var f := base.files[i];
        assert es[..i + 1][..i] == es[..i];
        if ContainsSloppy(f.contents) {
          warnings := warnings + [Warning(f.origName)];
        }
      }
      assert es[..|es|] == es;
    }
  }
}

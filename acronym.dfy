/** The acronym checker: reports lower-case spellings of a fixed list of
    acronyms in documentation files, line by line. The pattern is the
    alternation of `(?:^|\s)<key>(?:$|\s)` over the keys, matched with
    leftmost-first semantics and without case folding; `FindAll` scans for
    successive non-overlapping matches. Because no key is a prefix of
    another, at most one alternative can match at a position, so the scan
    here tries positions left to right. */
module Acronym {
  import opened Text
  import opened Repo
  import opened Base

  /** Each lower-case spelling and the acronym it should be written as. */
  const AcronymMap: map<string, string> := map[
    "gnu" := "GNU", "sql" := "SQL", "dsl" := "DSL", "ansi" := "ANSI", "bios" := "BIOS",
    "cgi" := "CGI", "ssa" := "SSA", "dpi" := "DPI", "gui" := "GUI", "oop" := "OOP"]

  /** The keys of `AcronymMap`, in the order they are tried. */
  const AcronymKeys: seq<string> := ["gnu", "sql", "dsl", "ansi", "bios", "cgi", "ssa", "dpi", "gui", "oop"]

  lemma KeysAgree()
    ensures forall k :: k in AcronymKeys <==> k in AcronymMap
  {
  }

  /** No key is a prefix of another, and every key is a non-empty run of
      lower-case letters. */
  predicate WellFormedKeys(ks: seq<string>) {
    (forall i, j :: 0 <= i < |ks| && 0 <= j < |ks| && ks[i] <= ks[j] ==> ks[i] == ks[j]) &&
    (forall i :: 0 <= i < |ks| ==> ks[i] != [] && forall c :: c in ks[i] ==> 'a' <= c <= 'z')
  }

  lemma AcronymKeysWellFormed()
    ensures WellFormedKeys(AcronymKeys)
  {
    var ks := AcronymKeys;
    forall i, j | 0 <= i < |ks| && 0 <= j < |ks| && ks[i] <= ks[j]
      ensures ks[i] == ks[j]
    {
      assert ks[i][0] == ks[j][0] && ks[i][1] == ks[j][1] && ks[i][2] == ks[j][2];
    }
  }

  /** The first key in `ks` that starts `s`. */
  function FirstKey(ks: seq<string>, s: string): (r: Option<nat>)
    ensures r.Some? ==> r.value < |ks| && ks[r.value] <= s
    ensures r.None? ==> forall i :: 0 <= i < |ks| ==> !(ks[i] <= s)
  {
    if ks == [] then None
    else if ks[0] <= s then Some(0)
    else match FirstKey(ks[1..], s)
      case None => None
      case Some(i) => Some(i + 1)
  }

  /** The key that starts at position `i` of `l`, if any. */
  function KeyAt(ks: seq<string>, l: string, i: nat): (r: Option<string>)
    requires i <= |l|
    ensures r.Some? ==> r.value in ks && r.value <= l[i..]
    ensures r.None? ==> forall k :: k in ks ==> !(k <= l[i..])
  {
    match FirstKey(ks, l[i..])
    case None => None
    case Some(j) => Some(ks[j])
  }

  /** `(?:$|\s)` can match at `j`: the end of the line or a space. */
  predicate Delim(l: string, j: nat) {
    j == |l| || (j < |l| && IsRegexSpace(l[j]))
  }

  /** Where a match whose key ends at `j` ends: after the space, if any. */
  function End(l: string, j: nat): nat {
    if j < |l| then j + 1 else j
  }

  /** The end of the match that starts at position `s`, if one does. */
  function MatchAt(ks: seq<string>, l: string, s: nat): (r: Option<nat>)
    requires s <= |l|
    ensures r.Some? ==> s < r.value <= |l| || (r.value == s && KeyAt(ks, l, 0) == Some([]))
  {
    if s == 0 && KeyAt(ks, l, 0).Some? && Delim(l, |KeyAt(ks, l, 0).value|) then
      Some(End(l, |KeyAt(ks, l, 0).value|))
    else if s < |l| && IsRegexSpace(l[s]) && KeyAt(ks, l, s + 1).Some? &&
        Delim(l, s + 1 + |KeyAt(ks, l, s + 1).value|) then
      Some(End(l, s + 1 + |KeyAt(ks, l, s + 1).value|))
    else None
  }

  /** `FindAllString(l, -1)` from position `p`: the successive leftmost
      matches, each search starting where the previous match ended. */
  function FindAll(ks: seq<string>, l: string, p: nat): seq<string>
    requires p <= |l|
    requires WellFormedKeys(ks)
    decreases |l| - p
  {
    if p == |l| then []
    else match MatchAt(ks, l, p)
      case Some(e) => [l[p..e]] + FindAll(ks, l, e)
      case None => FindAll(ks, l, p + 1)
  }

  /** `l[s..e]` is matched by `(?:^|\s)k(?:$|\s)`, taking `a` characters for
      the leading part and `b` for the trailing one. */
  predicate KeyMatchWith(l: string, s: nat, e: nat, k: string, a: nat, b: nat) {
    a <= 1 && b <= 1 && e == s + a + |k| + b && e <= |l| &&
    (if a == 0 then s == 0 else IsRegexSpace(l[s])) &&
    l[s + a..s + a + |k|] == k &&
    (if b == 0 then s + a + |k| == |l| else IsRegexSpace(l[s + a + |k|]))
  }

  /** The alternation over `ks`, read directly, matches `l[s..e]`. */
  ghost predicate AltMatch(ks: seq<string>, l: string, s: nat, e: nat) {
    exists k, a: nat, b: nat :: k in ks && KeyMatchWith(l, s, e, k, a, b)
  }

  /** A key that starts at `i` is the one `KeyAt` finds: keys are prefix-free. */
  lemma KeyAtIs(ks: seq<string>, l: string, i: nat, k: string)
    requires WellFormedKeys(ks)
    requires i <= |l| && k in ks && k <= l[i..]
    ensures KeyAt(ks, l, i) == Some(k)
  {
    var r := KeyAt(ks, l, i).value;
    assert r <= k || k <= r;
  }

  /** No key starts at a character that is not a lower-case letter. */
  lemma NoKeyAt(ks: seq<string>, l: string, i: nat)
    requires WellFormedKeys(ks)
    requires i <= |l| && (i == |l| || !('a' <= l[i] <= 'z'))
    ensures KeyAt(ks, l, i).None?
  {
    forall j | 0 <= j < |ks|
      ensures !(ks[j] <= l[i..])
    {
      assert ks[j][0] in ks[j];
    }
  }

  /** A match `MatchAt` reports is one of the alternation's. */
  lemma MatchAtSound(ks: seq<string>, l: string, s: nat, e: nat)
    requires WellFormedKeys(ks)
    requires s <= |l| && MatchAt(ks, l, s) == Some(e)
    ensures AltMatch(ks, l, s, e)
  {
    if s == 0 && KeyAt(ks, l, 0).Some? && Delim(l, |KeyAt(ks, l, 0).value|) {
      var k := KeyAt(ks, l, 0).value;
      assert l[0..|k|] == k;
      assert KeyMatchWith(l, s, e, k, 0, if |k| < |l| then 1 else 0);
    } else {
      var k := KeyAt(ks, l, s + 1).value;
      assert l[s + 1..s + 1 + |k|] == k;
      assert KeyMatchWith(l, s, e, k, 1, if s + 1 + |k| < |l| then 1 else 0);
    }
  }

  /** Any match of the alternation at `s` is the one `MatchAt` reports. */
  lemma MatchAtComplete(ks: seq<string>, l: string, s: nat, e: nat, k: string, a: nat, b: nat)
    requires WellFormedKeys(ks)
    requires k in ks && KeyMatchWith(l, s, e, k, a, b)
    ensures MatchAt(ks, l, s) == Some(e)
  {
    assert k <= l[s + a..] by {
      assert l[s + a..][..|k|] == l[s + a..s + a + |k|];
    }
    KeyAtIs(ks, l, s + a, k);
    if a == 1 && s == 0 {
      NoKeyAt(ks, l, 0);
    }
  }

  /** `MatchAt` finds a match exactly where the alternation has one, and the
      match it reports is the only one starting there. */
  lemma MatchAtIff(ks: seq<string>, l: string, s: nat, e: nat)
    requires WellFormedKeys(ks)
    requires s <= |l|
    ensures MatchAt(ks, l, s) == Some(e) <==> AltMatch(ks, l, s, e)
  {
    if MatchAt(ks, l, s) == Some(e) {
      MatchAtSound(ks, l, s, e);
    }
    if AltMatch(ks, l, s, e) {
      var k, a: nat, b: nat :| k in ks && KeyMatchWith(l, s, e, k, a, b);
      MatchAtComplete(ks, l, s, e, k, a, b);
    }
  }

  /** Every match is a key with at most one white-space character on either
      side, and trimming it gives the key. */
  lemma {:induction false} FindAllSound(ks: seq<string>, l: string, p: nat, m: string)
    requires WellFormedKeys(ks)
    requires p <= |l| && m in FindAll(ks, l, p)
    ensures exists s, e :: p <= s < e <= |l| && m == l[s..e] && AltMatch(ks, l, s, e)
    ensures TrimSpace(m) in ks
    decreases |l| - p
  {
    if p < |l| {
      match MatchAt(ks, l, p)
      case Some(e) =>
        if m == l[p..e] {
          MatchAtIff(ks, l, p, e);
          var k, a: nat, b: nat :| k in ks && KeyMatchWith(l, p, e, k, a, b);
          TrimmedMatch(ks, l, p, e, k, a, b);
        } else {
          FindAllSound(ks, l, e, m);
        }
      case None =>
        FindAllSound(ks, l, p + 1, m);
    }
  }

  /** Trimming a match leaves its key. */
  lemma TrimmedMatch(ks: seq<string>, l: string, s: nat, e: nat, k: string, a: nat, b: nat)
    requires WellFormedKeys(ks)
    requires k in ks && KeyMatchWith(l, s, e, k, a, b)
    ensures TrimSpace(l[s..e]) == k
  {
    var lead := l[s..s + a];
    var trail := l[s + a + |k|..e];
    assert l[s..e] == lead + k + trail;
    assert k[0] in k && k[|k| - 1] in k;
    assert forall i :: 0 <= i < |lead| ==> IsGoSpace(lead[i]);
    assert forall i :: 0 <= i < |trail| ==> IsGoSpace(trail[i]);
    TrimSpaceSurrounded(lead, k, trail);
  }

  /** The scan from `p` finds nothing exactly when no match starts at or after `p`. */
  lemma {:induction false} FindAllEmptyIff(ks: seq<string>, l: string, p: nat)
    requires WellFormedKeys(ks)
    requires p <= |l|
    ensures FindAll(ks, l, p) == [] <==> forall s :: p <= s < |l| ==> MatchAt(ks, l, s).None?
    decreases |l| - p
  {
    if p < |l| {
      FindAllEmptyIff(ks, l, p + 1);
      if MatchAt(ks, l, p).Some? {
        assert FindAll(ks, l, p) != [];
      } else {
        assert FindAll(ks, l, p) == FindAll(ks, l, p + 1);
      }
    }
  }

  /** A line with no lower-case letter (an acronym already written in capitals,
      say) has no match: the keys are matched case-sensitively. */
  lemma NoLowerCaseNoMatch(ks: seq<string>, l: string, p: nat)
    requires WellFormedKeys(ks)
    requires p <= |l|
    requires forall i :: 0 <= i < |l| ==> !('a' <= l[i] <= 'z')
    ensures FindAll(ks, l, p) == []
  {
    forall s | p <= s < |l|
      ensures MatchAt(ks, l, s).None?
    {
      NoKeyAt(ks, l, 0);
      NoKeyAt(ks, l, s + 1);
    }
    FindAllEmptyIff(ks, l, p);
  }

  /** Past the start of the line, a match needs a white-space character. */
  lemma {:induction false} NoSpaceNoMatch(ks: seq<string>, l: string, p: nat)
    requires WellFormedKeys(ks)
    requires 0 < p <= |l|
    requires forall i :: p <= i < |l| ==> !IsRegexSpace(l[i])
    ensures FindAll(ks, l, p) == []
  {
    FindAllEmptyIff(ks, l, p);
  }

  /** The acronym checker's matches on line `l`. */
  function Matches(l: string): seq<string> {
    AcronymKeysWellFormed();
    FindAll(AcronymKeys, l, 0)
  }

  /** A trailing space taken by one match cannot start the next: in
      `sql gui` only `sql` is found. */
  lemma SharedSpaceExample()
    ensures Matches("sql gui") == ["sql "]
  {
    var ks, l := AcronymKeys, "sql gui";
    AcronymKeysWellFormed();
    assert "sql" <= l[0..] && ks[1] == "sql";
    KeyAtIs(ks, l, 0, "sql");
    assert MatchAt(ks, l, 0) == Some(4);
    NoSpaceNoMatch(ks, l, 4);
    assert l[0..4] == "sql ";
  }

  /** An acronym already in capitals is not reported. */
  lemma CapitalsExample()
    ensures Matches("GUI") == []
  {
    AcronymKeysWellFormed();
    NoLowerCaseNoMatch(AcronymKeys, "GUI", 0);
  }

  /** A key inside a longer word is not reported. */
  lemma LongerWordExample()
    ensures Matches("sqlite") == []
  {
    var ks, l := AcronymKeys, "sqlite";
    AcronymKeysWellFormed();
    assert "sql" <= l[0..] && ks[1] == "sql";
    KeyAtIs(ks, l, 0, "sql");
    assert !Delim(l, 3);
    assert MatchAt(ks, l, 0).None?;
    NoSpaceNoMatch(ks, l, 1);
  }

  /** The acronym for a match, or the empty string for an unknown one (a map
      lookup that misses yields the zero value). */
  function Replacement(m: string): string {
    if m in AcronymMap then AcronymMap[m] else ""
  }

  /** ASCII upper case. */
  function UpperChar(c: char): char {
    if 'a' <= c <= 'z' then (c as int - 32) as char else c
  }

  function Upper(s: string): (r: string)
    ensures |r| == |s| && forall i :: 0 <= i < |s| ==> r[i] == UpperChar(s[i])
  {
    seq(|s|, i requires 0 <= i < |s| => UpperChar(s[i]))
  }

  /** `up` is `lo` in capitals. */
  lemma UpperOf(lo: string, up: string)
    requires |lo| == |up| && forall i :: 0 <= i < |lo| ==> UpperChar(lo[i]) == up[i]
    ensures Upper(lo) == up
  {
  }

  /** Every key is replaced by its own spelling in capitals. */
  lemma ReplacementIsUpperCase(k: string)
    requires k in AcronymKeys
    ensures Replacement(k) == Upper(k)
  {
    if k == "gnu" || k == "sql" || k == "dsl" || k == "ansi" || k == "bios" {
      FirstKeysUpper(k);
    } else {
      LastKeysUpper(k);
    }
  }

  lemma FirstKeysUpper(k: string)
    requires k == "gnu" || k == "sql" || k == "dsl" || k == "ansi" || k == "bios"
    ensures Replacement(k) == Upper(k)
  {
    if k == "gnu" { UpperOf(k, "GNU"); }
    else if k == "sql" { UpperOf(k, "SQL"); }
    else if k == "dsl" { UpperOf(k, "DSL"); }
    else if k == "ansi" { UpperOf(k, "ANSI"); }
    else { UpperOf(k, "BIOS"); }
  }

  lemma LastKeysUpper(k: string)
    requires k == "cgi" || k == "ssa" || k == "dpi" || k == "gui" || k == "oop"
    ensures Replacement(k) == Upper(k)
  {
    if k == "cgi" { UpperOf(k, "CGI"); }
    else if k == "ssa" { UpperOf(k, "SSA"); }
    else if k == "dpi" { UpperOf(k, "DPI"); }
    else if k == "gui" { UpperOf(k, "GUI"); }
    else { UpperOf(k, "OOP"); }
  }

  /** `<file>:<line>: replace <key> with <ACRONYM>`. */
  function MatchWarning(origName: string, n: nat, m: string): string {
    origName + ":" + Decimal(n) + ": replace " + TrimSpace(m) + " with " + Replacement(TrimSpace(m))
  }

  /** `f` applied to each element of `xs`. */
  function MapSeq<X, Y>(xs: seq<X>, f: X -> Y): (ys: seq<Y>)
    ensures |ys| == |xs|
    ensures forall j :: 0 <= j < |xs| ==> ys[j] == f(xs[j])
  {
    seq(|xs|, j requires 0 <= j < |xs| => f(xs[j]))
  }

  /** Mapping over one more element appends its image. */
  lemma MapSeqStep<X, Y>(xs: seq<X>, j: nat, f: X -> Y)
    requires j < |xs|
    ensures MapSeq(xs[..j + 1], f) == MapSeq(xs[..j], f) + [f(xs[j])]
  {
    var a, b := MapSeq(xs[..j + 1], f), MapSeq(xs[..j], f) + [f(xs[j])];
    forall k | 0 <= k < |a|
      ensures a[k] == b[k]
    {
      assert xs[..j + 1][k] == xs[k];
    }
  }

  /** The warning for a match on line `n` of file `origName`. */
  function WarningOn(origName: string, n: nat): string -> string {
    m => MatchWarning(origName, n, m)
  }

  /** The warnings for the matches `ms` on line `n`. */
  function MatchWarnings(origName: string, n: nat, ms: seq<string>): (ws: seq<string>)
    ensures |ws| == |ms|
    ensures forall j :: 0 <= j < |ms| ==> ws[j] == MatchWarning(origName, n, ms[j])
  {
    MapSeq(ms, WarningOn(origName, n))
  }

  /** The warnings for `lines`, the first being line 1. */
  function LinesWarnings(origName: string, lines: seq<string>): seq<string> {
    if lines == [] then []
    else
      LinesWarnings(origName, lines[..|lines| - 1]) +
      MatchWarnings(origName, |lines|, Matches(lines[|lines| - 1]))
  }

  /** The warnings for all accepted files, in file order. */
  function AcronymWarnings(es: seq<Entry>): seq<string> {
    if es == [] then []
    else AcronymWarnings(es[..|es| - 1]) + LinesWarnings(es[|es| - 1].origName, Split(es[|es| - 1].contents))
  }

  /** Warning `w` reports, as line `n` of `lines`, the match `l[s..e]` of the
      alternation on that line, naming its key and the key's acronym. */
  ghost predicate ReportsMatch(origName: string, lines: seq<string>, w: string, n: nat, s: nat, e: nat) {
    1 <= n <= |lines| && s < e <= |lines[n - 1]| && AltMatch(AcronymKeys, lines[n - 1], s, e) &&
    var k := TrimSpace(lines[n - 1][s..e]);
    k in AcronymKeys && w == origName + ":" + Decimal(n) + ": replace " + k + " with " + Replacement(k)
  }

  /** Every warning reports a match of the alternation on some line of the
      file, with the matched key and its acronym. */
  lemma {:induction false} LinesWarningsSound(origName: string, lines: seq<string>, w: string)
    requires w in LinesWarnings(origName, lines)
    ensures exists n, s, e :: ReportsMatch(origName, lines, w, n, s, e)
  {
    var init := lines[..|lines| - 1];
    if w in LinesWarnings(origName, init) {
      LinesWarningsSound(origName, init, w);
      var n, s, e :| ReportsMatch(origName, init, w, n, s, e);
      assert init[n - 1] == lines[n - 1];
      assert ReportsMatch(origName, lines, w, n, s, e);
    } else {
      var l := lines[|lines| - 1];
      var ms := Matches(l);
      var j :| 0 <= j < |ms| && w == MatchWarning(origName, |lines|, ms[j]);
      AcronymKeysWellFormed();
      FindAllSound(AcronymKeys, l, 0, ms[j]);
      var s, e :| 0 <= s < e <= |l| && ms[j] == l[s..e] && AltMatch(AcronymKeys, l, s, e);
      assert ReportsMatch(origName, lines, w, |lines|, s, e);
    }
  }

  /** Every match that starts in `[p, s)` ends at or before `s`. */
  predicate NotOverlapped(ks: seq<string>, l: string, p: nat, s: nat)
    requires s <= |l|
  {
    forall t :: p <= t < s && MatchAt(ks, l, t).Some? ==> MatchAt(ks, l, t).value <= s
  }

  /** A match found at `s` ends after `s`: keys are non-empty. */
  lemma MatchAdvances(ks: seq<string>, l: string, s: nat)
    requires WellFormedKeys(ks)
    requires s <= |l| && MatchAt(ks, l, s).Some?
    ensures s < MatchAt(ks, l, s).value
  {
  }

  /** The scan from `p` reaches a match at `s` when every match starting in
      between ends at or before `s`: only a match that overlaps it hides it. */
  lemma {:induction false} ScanReaches(ks: seq<string>, l: string, p: nat, s: nat, e: nat)
    requires WellFormedKeys(ks)
    requires p <= s <= |l| && MatchAt(ks, l, s) == Some(e)
    requires NotOverlapped(ks, l, p, s)
    ensures l[s..e] in FindAll(ks, l, p)
    decreases s - p
  {
    MatchAdvances(ks, l, s);
    if p == s {
      assert FindAll(ks, l, p) == [l[s..e]] + FindAll(ks, l, e);
    } else {
      var r := MatchAt(ks, l, p);
      if r.Some? {
        var e' := r.value;
        MatchAdvances(ks, l, p);
        assert e' <= s;
        assert FindAll(ks, l, p) == [l[p..e']] + FindAll(ks, l, e');
        assert NotOverlapped(ks, l, e', s);
        ScanReaches(ks, l, e', s, e);
      } else {
        assert FindAll(ks, l, p) == FindAll(ks, l, p + 1);
        assert NotOverlapped(ks, l, p + 1, s);
        ScanReaches(ks, l, p + 1, s, e);
      }
    }
  }

  /** Every key on line `n` delimited by the start of the line or a space and
      by the end of the line or a space is reported with its acronym, unless
      an earlier match on the line overlaps it. */
  lemma {:induction false} LinesWarningsComplete(origName: string, lines: seq<string>, n: nat,
                                                 s: nat, e: nat, k: string, a: nat, b: nat)
    requires 1 <= n <= |lines| && k in AcronymKeys && KeyMatchWith(lines[n - 1], s, e, k, a, b)
    requires NotOverlapped(AcronymKeys, lines[n - 1], 0, s)
    ensures origName + ":" + Decimal(n) + ": replace " + k + " with " + Upper(k) in LinesWarnings(origName, lines)
  {
    var init := lines[..|lines| - 1];
    if n < |lines| {
      assert init[n - 1] == lines[n - 1];
      LinesWarningsComplete(origName, init, n, s, e, k, a, b);
    } else {
      var l := lines[n - 1];
      AcronymKeysWellFormed();
      MatchAtComplete(AcronymKeys, l, s, e, k, a, b);
      ScanReaches(AcronymKeys, l, 0, s, e);
      TrimmedMatch(AcronymKeys, l, s, e, k, a, b);
      ReplacementIsUpperCase(k);
      var ms := Matches(l);
      var j :| 0 <= j < |ms| && ms[j] == l[s..e];
      assert MatchWarnings(origName, n, ms)[j] == MatchWarning(origName, n, l[s..e]);
    }
  }

  class AcronymChecker {
    const base: CheckerBase

    constructor()
      ensures fresh(base) && base.files == []
    {
      base := new CheckerBase();
    }

    /** Accepts documentation files only, asking for their contents. */
    method PushFile(f: RepoFile)
      modifies base, f
      ensures IsDocumentationFile(f.baseName) ==>
        base.files == old(base.files) + [f] && f.require == old(f.require).(contents := true)
      ensures !IsDocumentationFile(f.baseName) ==>
        base.files == old(base.files) && f.require == old(f.require)
      ensures f.contents == old(f.contents)
    {
      if IsDocumentationFile(f.baseName) {
        f.require := f.require.(contents := true);
        base.AcceptFile(f);
      }
    }

    /** One warning per match, by file, then line, then position. */
    method CheckFiles() returns (warnings: seq<string>)
      ensures warnings == AcronymWarnings(Entries(base.files))
    {
      ghost var es := Entries(base.files);
      warnings := [];
      for fi := 0 to |base.files|
        invariant warnings == AcronymWarnings(es[..fi])
      {
        var name := base.files[fi].origName;
        var lines := Split(base.files[fi].contents);
        FileStep(es, fi);
        var fileWarnings := LinesWarningsOf(name, lines);
        warnings := warnings + fileWarnings;
      }
      assert es[..|es|] == es;
    }

    /** The warnings for the lines of file `name`, the first being line 1. */
    method LinesWarningsOf(name: string, lines: seq<string>) returns (warnings: seq<string>)
      ensures warnings == LinesWarnings(name, lines)
    {
      warnings := [];
      for i := 0 to |lines|
        invariant warnings == LinesWarnings(name, lines[..i])
      {
        var ms := Matches(lines[i]);
        LineStep(name, lines, i);
        var lineWarnings := MatchesWarnings(name, i + 1, ms);
        warnings := warnings + lineWarnings;
      }
      assert lines[..|lines|] == lines;
    }

    /** The warnings for the matches `ms` found on line `n` of file `name`. */
    method MatchesWarnings(name: string, n: nat, ms: seq<string>) returns (warnings: seq<string>)
      ensures warnings == MatchWarnings(name, n, ms)
    {
      warnings := [];
      for j := 0 to |ms|
        invariant warnings == MatchWarnings(name, n, ms[..j])
      {
        var m := TrimSpace(ms[j]);
        var w := name + ":" + Decimal(n) + ": replace " + m + " with " + Replacement(m);
        assert w == MatchWarning(name, n, ms[j]);
        MatchStep(name, n, ms, j, w);
        warnings := warnings + [w];
      }
      assert ms[..|ms|] == ms;
    }
  }

  /** The warnings for one more match. */
  lemma MatchStep(name: string, n: nat, ms: seq<string>, j: nat, w: string)
    requires j < |ms|
    requires w == MatchWarning(name, n, ms[j])
    ensures MatchWarnings(name, n, ms[..j + 1]) == MatchWarnings(name, n, ms[..j]) + [w]
  {
    MapSeqStep(ms, j, WarningOn(name, n));
  }

  /** The warnings for one more line. */
  lemma LineStep(name: string, lines: seq<string>, i: nat)
    requires i < |lines|
    ensures LinesWarnings(name, lines[..i + 1]) ==
      LinesWarnings(name, lines[..i]) + MatchWarnings(name, i + 1, Matches(lines[i]))
  {
    assert lines[..i + 1][..i] == lines[..i];
  }

  /** The warnings for one more file. */
  lemma FileStep(es: seq<Entry>, fi: nat)
    requires fi < |es|
    ensures AcronymWarnings(es[..fi + 1]) ==
      AcronymWarnings(es[..fi]) + LinesWarnings(es[fi].origName, Split(es[fi].contents))
  {
    assert es[..fi + 1][..fi] == es[..fi];
  }
}

/** The variable-typo checker: reports shell-variable references whose name
    is a known misspelling (`$GOPAHT`, `${CLASPATH}`) in documentation files,
    line by line. For each misspelt name the pattern has two alternatives,
    `\$NAME\b` and `\$\{NAME\}`; `FindVars` scans a line for successive
    non-overlapping leftmost matches, trying the alternatives in table order.
    Because every name is a run of word characters, at most one alternative
    can match at a position, so the table order does not matter. */
module VarTypo {
  import opened Text
  import opened Repo
  import opened Base

  /** Each misspelt variable name and its correction. */
  const TypoTable: seq<(string, string)> := [
    ("PAHT", "PATH"), ("HOEM", "HOME"), ("GOPAHT", "GOPATH"),
    ("JAAV_HOME", "JAVA_HOME"), ("JAVA_HOEM", "JAVA_HOME"), ("JAVE_HOME", "JAVA_HOME"),
    ("CLASSPAHT", "CLASSPATH"), ("CLASPATH", "CLASSPATH")]

  /** Names are non-empty runs of word characters, none listed twice. */
  predicate WellFormedTable(ts: seq<(string, string)>) {
    DistinctNames(ts) && WordNames(ts)
  }

  predicate DistinctNames(ts: seq<(string, string)>) {
    forall i, j :: 0 <= i < |ts| && 0 <= j < |ts| && ts[i].0 == ts[j].0 ==> i == j
  }

  predicate WordNames(ts: seq<(string, string)>) {
    forall i :: 0 <= i < |ts| ==> ts[i].0 != [] && forall c :: c in ts[i].0 ==> IsWordChar(c)
  }

  lemma TypoTableWellFormed()
    ensures WellFormedTable(TypoTable)
  {
    TypoNamesDistinct();
    TypoNamesWords();
  }

  lemma TypoNamesWords()
    ensures WordNames(TypoTable)
  {
  }

  lemma TypoNamesDistinct()
    ensures DistinctNames(TypoTable)
  {
    var ts := TypoTable;
    forall i, j | 0 <= i < |ts| && 0 <= j < |ts| && ts[i].0 == ts[j].0
      ensures i == j
    {
      assert |ts[i].0| == |ts[j].0| && ts[i].0[0] == ts[j].0[0] && ts[i].0[2] == ts[j].0[2];
      assert ts[i].0[|ts[i].0| - 1] == ts[j].0[|ts[j].0| - 1];
    }
  }

  /** `$NAME`, the text of the first alternative. */
  function Var(t: string): string {
    "$" + t
  }

  /** `${NAME}`, the text of the second alternative. */
  function Braced(t: string): string {
    "${" + t + "}"
  }

  /** RE2's `\b` at position `k` of `s`: a word character on exactly one side. */
  predicate Boundary(s: string, k: nat)
    requires k <= |s|
  {
    (0 < k && IsWordChar(s[k - 1])) != (k < |s| && IsWordChar(s[k]))
  }

  /** `\$t\b` matches at the start of `s`. */
  predicate VarAlt(t: string, s: string) {
    Var(t) <= s && Boundary(s, |Var(t)|)
  }

  /** `\$\{t\}` matches at the start of `s`. */
  predicate BracedAlt(t: string, s: string) {
    Braced(t) <= s
  }

  /** `m` is the text matched at the start of `s` by one of the two alternatives for `t`. */
  predicate IsAlt(t: string, m: string, s: string) {
    (m == Var(t) && VarAlt(t, s)) || (m == Braced(t) && BracedAlt(t, s))
  }

  /** Neither alternative for `t` matches at the start of `s`. */
  predicate NoAlt(t: string, s: string) {
    !VarAlt(t, s) && !BracedAlt(t, s)
  }

  /** The alternative the leftmost-first alternation takes at the start of
      `s`: the entry's index and the matched text. */
  function FirstAlt(ts: seq<(string, string)>, s: string): (r: Option<(nat, string)>)
    ensures r.Some? ==> r.value.0 < |ts| && IsAlt(ts[r.value.0].0, r.value.1, s)
    ensures r.Some? ==> forall i :: 0 <= i < r.value.0 ==> NoAlt(ts[i].0, s)
    ensures r.None? ==> forall i :: 0 <= i < |ts| ==> NoAlt(ts[i].0, s)
  {
    if ts == [] then None
    else if VarAlt(ts[0].0, s) then Some((0, Var(ts[0].0)))
    else if BracedAlt(ts[0].0, s) then Some((0, Braced(ts[0].0)))
    else match FirstAlt(ts[1..], s)
      case None => None
      case Some((i, m)) => Some((i + 1, m))
  }

  /** The text matched at the start of `s`, if any. */
  function FirstVar(ts: seq<(string, string)>, s: string): (r: Option<string>)
    ensures r.Some? ==> 0 < |r.value| && r.value <= s && r.value[0] == '$'
  {
    match FirstAlt(ts, s)
    case None => None
    case Some((_, m)) => Some(m)
  }

  /** What the alternation matches at each position of `l`, the search
      starting afresh there. */
  function Positions(ts: seq<(string, string)>, l: string): (rs: seq<Option<string>>)
    ensures |rs| == |l|
    ensures forall q :: 0 <= q < |l| ==> rs[q] == FirstVar(ts, l[q..])
    ensures Spans(rs)
  {
    seq(|l|, q requires 0 <= q < |l| => FirstVar(ts, l[q..]))
  }

  /** Every match is non-empty and ends within the line. */
  predicate Spans(rs: seq<Option<string>>) {
    forall q :: 0 <= q < |rs| && rs[q].Some? ==> 0 < |rs[q].value| <= |rs| - q
  }

  /** The matches found from position `p` on: after a match the search goes
      on at its end, otherwise one position further. */
  function Scan(rs: seq<Option<string>>, p: nat): seq<string>
    requires Spans(rs) && p <= |rs|
    decreases |rs| - p
  {
    if p == |rs| then []
    else match rs[p]
      case Some(m) => [m] + Scan(rs, p + |m|)
      case None => Scan(rs, p + 1)
  }

  /** `regexp.FindAllString(l, -1)` for the alternation of `ts`. */
  function FindVars(ts: seq<(string, string)>, l: string): seq<string> {
    Scan(Positions(ts, l), 0)
  }

  /** The reference: every match from position `p` on, taken independently. */
  function Found(rs: seq<Option<string>>, p: nat): seq<string>
    requires p <= |rs|
    decreases |rs| - p
  {
    if p == |rs| then []
    else (if rs[p].Some? then [rs[p].value] else []) + Found(rs, p + 1)
  }

  /** No match starts strictly inside another. */
  predicate Disjoint(rs: seq<Option<string>>) {
    forall q, k :: 0 <= q < k < |rs| && rs[q].Some? && k < q + |rs[q].value| ==> rs[k].None?
  }

  /** Two alternatives that match at the same place are the same
      alternative of the same name. */
  lemma AltsExclusive(a: string, b: string, ma: string, mb: string, s: string)
    requires a != [] && forall c :: c in a ==> IsWordChar(c)
    requires b != [] && forall c :: c in b ==> IsWordChar(c)
    requires IsAlt(a, ma, s) && IsAlt(b, mb, s)
    ensures a == b && ma == mb
  {
    assert a[0] in a && b[0] in b;
    var va, vb := ma == Var(a) && VarAlt(a, s), mb == Var(b) && VarAlt(b, s);
    assert va ==> s[1] == a[0];
    assert !va ==> ma == Braced(a) && s[1] == '{';
    assert vb ==> s[1] == b[0];
    assert !vb ==> mb == Braced(b) && s[1] == '{';
    if va && vb {
      assert a[|a| - 1] in a && b[|b| - 1] in b;
      assert a == s[1..|a| + 1] == b;
    } else if !va && !vb {
      BracedSameLength(a, b, s);
      assert a == s[2..|a| + 2] == b;
    } else {
      assert false;
    }
  }

  /** The character of `s` at offset `k` within a matched `${t}`. */
  lemma BracedChar(t: string, s: string, k: nat)
    requires BracedAlt(t, s) && k <= |t|
    ensures s[k + 2] == (if k < |t| then t[k] else '}')
    ensures k < |t| ==> t[k] in t
  {
    assert s[k + 2] == Braced(t)[k + 2];
  }

  /** `${a}` and `${b}` cannot both start `s` unless the names have the same length. */
  lemma BracedSameLength(a: string, b: string, s: string)
    requires forall c :: c in a ==> IsWordChar(c)
    requires forall c :: c in b ==> IsWordChar(c)
    requires BracedAlt(a, s) && BracedAlt(b, s)
    ensures |a| == |b|
  {
    var k := if |a| < |b| then |a| else |b|;
    BracedChar(a, s, k);
    BracedChar(b, s, k);
  }

  /** Whichever entry's alternative matches is the one the alternation takes. */
  lemma AltUnique(ts: seq<(string, string)>, s: string, i: nat, m: string)
    requires WellFormedTable(ts)
    requires i < |ts| && IsAlt(ts[i].0, m, s)
    ensures FirstVar(ts, s) == Some(m)
  {
    var r := FirstAlt(ts, s);
    if r.None? {
      assert false;
    }
    var j := r.value.0;
    AltsExclusive(ts[i].0, ts[j].0, m, r.value.1, s);
  }

  /** What the alternation matches at the start of `s`, in terms of the entries alone. */
  lemma FirstVarIff(ts: seq<(string, string)>, s: string, m: string)
    requires WellFormedTable(ts)
    ensures FirstVar(ts, s) == Some(m) <==> exists i :: 0 <= i < |ts| && IsAlt(ts[i].0, m, s)
  {
    if FirstVar(ts, s) == Some(m) {
      var i := FirstAlt(ts, s).value.0;
      assert IsAlt(ts[i].0, m, s);
    }
    if exists i :: 0 <= i < |ts| && IsAlt(ts[i].0, m, s) {
      var i :| 0 <= i < |ts| && IsAlt(ts[i].0, m, s);
      AltUnique(ts, s, i, m);
    }
  }

  /** The order of the entries, which a Go map leaves unspecified, does not
      change what matches at a position. */
  lemma FirstVarOrderIrrelevant(ts: seq<(string, string)>, us: seq<(string, string)>, s: string)
    requires WellFormedTable(ts) && WellFormedTable(us) && multiset(ts) == multiset(us)
    ensures FirstVar(ts, s) == FirstVar(us, s)
  {
    if FirstAlt(ts, s).Some? {
      MatchCarriesOver(ts, us, s);
    } else if FirstAlt(us, s).Some? {
      MatchCarriesOver(us, ts, s);
    }
  }

  /** A match found with one order of the entries is found with any other. */
  lemma MatchCarriesOver(ts: seq<(string, string)>, us: seq<(string, string)>, s: string)
    requires WellFormedTable(us) && multiset(ts) == multiset(us)
    requires FirstAlt(ts, s).Some?
    ensures FirstVar(us, s) == FirstVar(ts, s)
  {
    var (i, m) := FirstAlt(ts, s).value;
    assert ts[i] in multiset(us);
    var j :| 0 <= j < |us| && us[j] == ts[i];
    AltUnique(us, s, j, m);
  }

  /** The order of the entries does not change the matches of a line. */
  lemma FindVarsOrderIrrelevant(ts: seq<(string, string)>, us: seq<(string, string)>, l: string)
    requires WellFormedTable(ts) && WellFormedTable(us) && multiset(ts) == multiset(us)
    ensures FindVars(ts, l) == FindVars(us, l)
  {
    forall q | 0 <= q < |l|
      ensures Positions(ts, l)[q] == Positions(us, l)[q]
    {
      FirstVarOrderIrrelevant(ts, us, l[q..]);
    }
    assert Positions(ts, l) == Positions(us, l);
  }

  /** Every alternative starts with `$`, so nothing matches elsewhere. */
  lemma NoDollarNoVar(ts: seq<(string, string)>, s: string)
    requires s == [] || s[0] != '$'
    ensures FirstVar(ts, s) == None
  {
  }

  /** A match holds no `$` after its first character. */
  lemma NoDollarInside(ts: seq<(string, string)>, s: string, m: string, k: nat)
    requires WellFormedTable(ts)
    requires FirstVar(ts, s) == Some(m) && 0 < k < |m|
    ensures m[k] != '$'
  {
    var i := FirstAlt(ts, s).value.0;
    var t := ts[i].0;
    if m == Var(t) {
      assert m[k] == t[k - 1] && t[k - 1] in t;
    } else if 2 <= k < |m| - 1 {
      assert m[k] == t[k - 2] && t[k - 2] in t;
    }
  }

  /** Because no alternative can start inside a match, matches never overlap. */
  lemma PositionsDisjoint(ts: seq<(string, string)>, l: string)
    requires WellFormedTable(ts)
    ensures Disjoint(Positions(ts, l))
  {
    var rs := Positions(ts, l);
    forall q, k | 0 <= q < k < |rs| && rs[q].Some? && k < q + |rs[q].value|
      ensures rs[k].None?
    {
      var m := rs[q].value;
      NoDollarInside(ts, l[q..], m, k - q);
      assert l[k] == l[q..][k - q] == m[k - q];
      NoDollarNoVar(ts, l[k..]);
    }
  }

  /** Positions without a match add nothing to the reference. */
  lemma {:induction false} FoundSkip(rs: seq<Option<string>>, p: nat, q: nat)
    requires p <= q <= |rs| && forall k :: p <= k < q ==> rs[k].None?
    ensures Found(rs, p) == Found(rs, q)
    decreases q - p
  {
    if p < q {
      var p1: nat := p + 1;
      FoundSkip(rs, p1, q);
      assert Found(rs, p) == [] + Found(rs, p1);
    }
  }

  /** When matches do not overlap, the scan loses none of them. */
  lemma {:induction false} ScanFound(rs: seq<Option<string>>, p: nat)
    requires Spans(rs) && Disjoint(rs) && p <= |rs|
    ensures Scan(rs, p) == Found(rs, p)
    decreases |rs| - p
  {
    if p < |rs| {
      if rs[p].Some? {
        var m := rs[p].value;
        var q: nat := p + |m|;
        var p1: nat := p + 1;
        ScanFound(rs, q);
        FoundSkip(rs, p1, q);
        assert Scan(rs, p) == [m] + Scan(rs, q);
        assert Found(rs, p) == [m] + Found(rs, p1);
      } else {
        var p1: nat := p + 1;
        ScanFound(rs, p1);
        assert Found(rs, p) == [] + Found(rs, p1);
      }
    }
  }

  /** A text is in the reference exactly when it is the match at some position. */
  lemma {:induction false} FoundMembership(rs: seq<Option<string>>, p: nat, m: string)
    requires p <= |rs|
    ensures m in Found(rs, p) <==> exists q :: p <= q < |rs| && rs[q] == Some(m)
    decreases |rs| - p
  {
    if p < |rs| {
      var p1: nat := p + 1;
      FoundMembership(rs, p1, m);
      var head := if rs[p].Some? then [rs[p].value] else [];
      var tail := Found(rs, p1);
      assert Found(rs, p) == head + tail;
      assert m in Found(rs, p) <==> m in head || m in tail;
      if m in head {
        assert rs[p] == Some(m);
      } else if m in tail {
        var q :| p1 <= q < |rs| && rs[q] == Some(m);
        assert p <= q;
      } else {
        forall q | p <= q < |rs| && rs[q] == Some(m) ensures false {
          if q == p {
            assert false;
          }
        }
      }
    }
  }

  /** The scan finds `m` exactly when an entry's alternative matches `m`
      somewhere on the line. */
  lemma FindVarsIff(ts: seq<(string, string)>, l: string, m: string)
    requires WellFormedTable(ts)
    ensures m in FindVars(ts, l) <==> exists q :: 0 <= q < |l| && FirstVar(ts, l[q..]) == Some(m)
  {
    var rs := Positions(ts, l);
    PositionsDisjoint(ts, l);
    ScanFound(rs, 0);
    FoundMembership(rs, 0, m);
    if exists q :: 0 <= q < |l| && FirstVar(ts, l[q..]) == Some(m) {
      var q :| 0 <= q < |l| && FirstVar(ts, l[q..]) == Some(m);
      assert rs[q] == Some(m);
    }
  }

  /** The matches of `l` under the checker's table. */
  function Vars(l: string): seq<string> {
    FindVars(TypoTable, l)
  }

  /** A line whose only `$` starts the match `m` yields exactly that match. */
  lemma SingleMatch(ts: seq<(string, string)>, l: string, a: string, m: string, b: string)
    requires WellFormedTable(ts) && l == a + m + b && '$' !in a && '$' !in b
    requires FirstVar(ts, m + b) == Some(m)
    ensures FindVars(ts, l) == [m]
  {
    var rs := Positions(ts, l);
    var p := |a|;
    assert l[p..] == m + b;
    forall k | 0 <= k < |l| && k != p
      ensures rs[k].None?
    {
      if k < p {
        assert l[k] == a[k];
      } else if k < p + |m| {
        NoDollarInside(ts, m + b, m, k - p);
        assert l[k] == m[k - p];
      } else {
        assert l[k] == b[k - p - |m|];
      }
      NoDollarNoVar(ts, l[k..]);
    }
    PositionsDisjoint(ts, l);
    ScanFound(rs, 0);
    var p1: nat := p + 1;
    FoundSkip(rs, 0, p);
    FoundSkip(rs, p1, |rs|);
    assert Found(rs, p) == [m] + Found(rs, p1);
  }

  /** `$GOPAHT` followed by `/` matches the `GOPAHT` entry. */
  lemma GopathMatch(s: string)
    requires s == "$GOPAHT" + "/bin"
    ensures FirstVar(TypoTable, s) == Some("$GOPAHT")
  {
    var ts := TypoTable;
    TypoTableWellFormed();
    assert Var(ts[2].0) == "$GOPAHT" <= s;
    assert Boundary(s, 7);
    AltUnique(ts, s, 2, "$GOPAHT");
  }

  /** A misspelt name followed by `/` is found. */
  lemma GopathExample(l: string)
    requires l == "export PATH=" + "$GOPAHT" + "/bin"
    ensures Vars(l) == ["$GOPAHT"]
  {
    TypoTableWellFormed();
    GopathMatch("$GOPAHT" + "/bin");
    assert '$' !in "export PATH=" && '$' !in "/bin";
    SingleMatch(TypoTable, l, "export PATH=", "$GOPAHT", "/bin");
  }

  /** `${CLASPATH}` matches the `CLASPATH` entry. */
  lemma BracedMatch(s: string)
    requires s == "${CLASPATH}"
    ensures FirstVar(TypoTable, s) == Some("${CLASPATH}")
  {
    var ts := TypoTable;
    TypoTableWellFormed();
    assert Braced(ts[7].0) == s;
    AltUnique(ts, s, 7, s);
  }

  /** A braced misspelt name is found. */
  lemma BracedExample(l: string)
    requires l == "${CLASPATH}"
    ensures Vars(l) == [l]
  {
    TypoTableWellFormed();
    assert l + [] == l && [] + l + [] == l;
    BracedMatch(l + []);
    SingleMatch(TypoTable, l, [], l, []);
  }

  /** The map from each alternative's text to the correction, built entry by entry. */
  function VarsMapOf(ts: seq<(string, string)>): map<string, string> {
    if ts == [] then map[]
    else
      var (t, c) := ts[|ts| - 1];
      VarsMapOf(ts[..|ts| - 1])[Var(t) := c][Braced(t) := c]
  }

  /** Both texts of an entry look up that entry's correction. */
  lemma {:induction false} VarsMapLookup(ts: seq<(string, string)>, i: nat)
    requires WellFormedTable(ts) && i < |ts|
    ensures Var(ts[i].0) in VarsMapOf(ts) && VarsMapOf(ts)[Var(ts[i].0)] == ts[i].1
    ensures Braced(ts[i].0) in VarsMapOf(ts) && VarsMapOf(ts)[Braced(ts[i].0)] == ts[i].1
  {
    var n := |ts| - 1;
    if i < n {
      var init := ts[..n];
      assert init[i] == ts[i];
      assert WellFormedTable(init);
      VarsMapLookup(init, i);
      var a, b := ts[i].0, ts[n].0;
      assert a != b;
      assert a[0] in a && b[0] in b;
      assert Var(a) != Braced(b) && Braced(a) != Var(b) by {
        assert Var(a)[1] == a[0] && Braced(b)[1] == '{';
        assert Braced(a)[1] == '{' && Var(b)[1] == b[0];
      }
      if |a| == |b| {
        assert Var(a) != Var(b) && Braced(a) != Braced(b) by {
          var k :| 0 <= k < |a| && a[k] != b[k];
          assert Var(a)[k + 1] != Var(b)[k + 1] && Braced(a)[k + 2] != Braced(b)[k + 2];
        }
      }
    }
  }

  /** The correction reported for a match, or Go's zero value when absent. */
  function Correction(ts: seq<(string, string)>, m: string): string {
    CorrectionIn(VarsMapOf(ts), m)
  }

  /** The correction map's entry for `m`, or the empty string. */
  function CorrectionIn(vm: map<string, string>, m: string): string {
    if m in vm then vm[m] else ""
  }

  function TypoWarning(origName: string, n: nat, m: string, corrected: string): string {
    origName + ":" + Decimal(n) + ": " + m + " could be a misspelling of " + corrected
  }

  /** The warnings for the matches `ms` on line `n`. */
  function MatchWarnings(ts: seq<(string, string)>, origName: string, n: nat, ms: seq<string>): (ws: seq<string>)
    ensures |ws| == |ms|
    ensures forall j :: 0 <= j < |ms| ==> ws[j] == TypoWarning(origName, n, ms[j], Correction(ts, ms[j]))
  {
    seq(|ms|, j requires 0 <= j < |ms| => TypoWarning(origName, n, ms[j], Correction(ts, ms[j])))
  }

  /** The warnings for `lines`, the first being line 1. */
  function LinesWarnings(ts: seq<(string, string)>, origName: string, lines: seq<string>): seq<string> {
    if lines == [] then []
    else
      LinesWarnings(ts, origName, lines[..|lines| - 1]) +
      MatchWarnings(ts, origName, |lines|, FindVars(ts, lines[|lines| - 1]))
  }

  function TypoWarnings(ts: seq<(string, string)>, es: seq<Entry>): seq<string> {
    if es == [] then []
    else TypoWarnings(ts, es[..|es| - 1]) + LinesWarnings(ts, es[|es| - 1].origName, Split(es[|es| - 1].contents))
  }

  /** At some position of `l`, an alternative for `t` matches `m`. */
  predicate TypoOnLine(t: string, m: string, l: string) {
    exists q :: 0 <= q < |l| && AltAt(t, m, l, q)
  }

  /** One of the alternatives for `t` matches `m` at position `q` of `l`. */
  predicate AltAt(t: string, m: string, l: string, q: nat)
    requires q <= |l|
  {
    IsAlt(t, m, l[q..])
  }

  /** Warning `w` reports, as line `n`, the match `m` of entry `i` on `l`
      with that entry's correction. */
  predicate ReportsOnLine(ts: seq<(string, string)>, origName: string, n: nat, l: string, w: string,
                          i: nat, m: string)
  {
    i < |ts| && TypoOnLine(ts[i].0, m, l) && w == TypoWarning(origName, n, m, ts[i].1)
  }

  /** Warning `w` reports, on line `n` of `lines`, the match `m` of entry `i`. */
  predicate ReportsTypo(ts: seq<(string, string)>, origName: string, lines: seq<string>, w: string,
                        n: nat, i: nat, m: string)
  {
    1 <= n <= |lines| && ReportsOnLine(ts, origName, n, lines[n - 1], w, i, m)
  }

  /** Every warning for a line reports a match on it with the entry's correction. */
  lemma MatchWarningsSound(ts: seq<(string, string)>, origName: string, n: nat, l: string, w: string)
    requires WellFormedTable(ts)
    requires w in MatchWarnings(ts, origName, n, FindVars(ts, l))
    ensures exists i, m :: ReportsOnLine(ts, origName, n, l, w, i, m)
  {
    var ms := FindVars(ts, l);
    var j :| 0 <= j < |ms| && w == TypoWarning(origName, n, ms[j], Correction(ts, ms[j]));
    FindVarsIff(ts, l, ms[j]);
    var q :| 0 <= q < |l| && FirstVar(ts, l[q..]) == Some(ms[j]);
    var i := FirstAlt(ts, l[q..]).value.0;
    VarsMapLookup(ts, i);
    assert AltAt(ts[i].0, ms[j], l, q);
    assert ReportsOnLine(ts, origName, n, l, w, i, ms[j]);
  }

  /** Every warning names a line, an entry matched on it, and that entry's correction. */
  lemma {:induction false} LinesWarningsSound(ts: seq<(string, string)>, origName: string, lines: seq<string>, w: string)
    requires WellFormedTable(ts)
    requires w in LinesWarnings(ts, origName, lines)
    ensures exists n, i, m :: ReportsTypo(ts, origName, lines, w, n, i, m)
  {
    var n := |lines|;
    var init := lines[..n - 1];
    if w in LinesWarnings(ts, origName, init) {
      LinesWarningsSound(ts, origName, init, w);
      var k, i, m :| ReportsTypo(ts, origName, init, w, k, i, m);
      assert init[k - 1] == lines[k - 1];
      assert ReportsTypo(ts, origName, lines, w, k, i, m);
    } else {
      MatchWarningsSound(ts, origName, n, lines[n - 1], w);
      var i, m :| ReportsOnLine(ts, origName, n, lines[n - 1], w, i, m);
      assert ReportsTypo(ts, origName, lines, w, n, i, m);
    }
  }

  /** A match on a line is reported with its entry's correction. */
  lemma MatchWarningsComplete(ts: seq<(string, string)>, origName: string, n: nat, l: string, i: nat, m: string)
    requires WellFormedTable(ts)
    requires i < |ts| && TypoOnLine(ts[i].0, m, l)
    ensures TypoWarning(origName, n, m, ts[i].1) in MatchWarnings(ts, origName, n, FindVars(ts, l))
  {
    var q :| 0 <= q < |l| && AltAt(ts[i].0, m, l, q);
    AltUnique(ts, l[q..], i, m);
    FindVarsIff(ts, l, m);
    var ms := FindVars(ts, l);
    var j :| 0 <= j < |ms| && ms[j] == m;
    VarsMapLookup(ts, i);
    var ws := MatchWarnings(ts, origName, n, ms);
    assert ws[j] == TypoWarning(origName, n, m, ts[i].1);
  }

  /** Every misspelling on a line is reported with its entry's correction. */
  lemma {:induction false} LinesWarningsComplete(ts: seq<(string, string)>, origName: string, lines: seq<string>,
                                                  n: nat, i: nat, m: string)
    requires WellFormedTable(ts)
    requires 1 <= n <= |lines| && i < |ts| && TypoOnLine(ts[i].0, m, lines[n - 1])
    ensures TypoWarning(origName, n, m, ts[i].1) in LinesWarnings(ts, origName, lines)
    decreases |lines|
  {
    var init := lines[..|lines| - 1];
    if n < |lines| {
      assert init[n - 1] == lines[n - 1];
      LinesWarningsComplete(ts, origName, init, n, i, m);
    } else {
      MatchWarningsComplete(ts, origName, n, lines[n - 1], i, m);
    }
  }

  /** The checker: the compiled pattern's map from matched text to correction. */
  class VarTypoChecker {
    const base: CheckerBase
    const varsMap: map<string, string>

    /** The map holds exactly the entries of the table. */
    predicate Valid() {
      varsMap == VarsMapOf(TypoTable)
    }

    constructor()
      ensures fresh(base) && base.files == [] && Valid()
    {
      var fromTo: map<string, string> := map[];
      for t := 0 to |TypoTable|
        invariant fromTo == VarsMapOf(TypoTable[..t])
      {
        var (typo, corrected) := TypoTable[t];
        fromTo := fromTo["$" + typo := corrected]["${" + typo + "}" := corrected];
        assert TypoTable[..t + 1][..t] == TypoTable[..t];
      }
      assert TypoTable[..|TypoTable|] == TypoTable;
      base := new CheckerBase();
      varsMap := fromTo;
    }

    /** Accepts documentation files only, asking for their contents. */
    method PushFile(f: RepoFile)
      modifies base, f
      ensures IsDocumentationFile(f.baseName) ==>
        base.files == old(base.files) + [f] && f.require == old(f.require).(contents := true)
      ensures !IsDocumentationFile(f.baseName) ==>
        base.files == old(base.files) && f.require == old(f.require)
      ensures f.contents == old(f.contents)
    {
      if IsDocumentationFile(f.baseName) {
        f.require := f.require.(contents := true);
        base.AcceptFile(f);
      }
    }

    /** One warning per match, by file, then line, then position. */
    method CheckFiles() returns (warnings: seq<string>)
      requires Valid()
      ensures warnings == TypoWarnings(TypoTable, Entries(base.files))
    {
      ghost var es := Entries(base.files);
      warnings := [];
      for fi := 0 to |base.files|
        invariant warnings == TypoWarnings(TypoTable, es[..fi])
      {
        var name := base.files[fi].origName;
        var lines := Split(base.files[fi].contents);
        FileStep(es, fi);
        var fileWarnings := LinesWarningsOf(name, lines);
        warnings := warnings + fileWarnings;
      }
      assert es[..|es|] == es;
    }

    /** The warnings for the lines of file `name`, the first being line 1. */
    method LinesWarningsOf(name: string, lines: seq<string>) returns (warnings: seq<string>)
      requires Valid()
      ensures warnings == LinesWarnings(TypoTable, name, lines)
    {
      warnings := [];
      for i := 0 to |lines|
        invariant warnings == LinesWarnings(TypoTable, name, lines[..i])
      {
        var ms := Vars(lines[i]);
        LineStep(name, lines, i);
        var lineWarnings := MatchesWarnings(name, i + 1, ms);
        warnings := warnings + lineWarnings;
      }
      assert lines[..|lines|] == lines;
    }

    /** The warnings for the matches `ms` found on line `n` of file `name`. */
    method MatchesWarnings(name: string, n: nat, ms: seq<string>) returns (warnings: seq<string>)
      requires Valid()
      ensures warnings == MatchWarnings(TypoTable, name, n, ms)
    {
      warnings := [];
      for j := 0 to |ms|
        invariant warnings == MatchWarnings(TypoTable, name, n, ms[..j])
      {
        var m := ms[j];
        var corrected := if m in varsMap then varsMap[m] else "";
        var w := name + ":" + Decimal(n) + ": " + m + " could be a misspelling of " + corrected;
        assert corrected == CorrectionIn(varsMap, m);
        assert w == TypoWarning(name, n, ms[j], Correction(TypoTable, ms[j]));
        MatchStep(TypoTable, name, n, ms, j, w);
        warnings := warnings + [w];
      }
      assert ms[..|ms|] == ms;
    }
  }

  /** The warnings for one more match. */
  lemma MatchStep(ts: seq<(string, string)>, name: string, n: nat, ms: seq<string>, j: nat, w: string)
    requires j < |ms|
    requires w == TypoWarning(name, n, ms[j], Correction(ts, ms[j]))
    ensures MatchWarnings(ts, name, n, ms[..j + 1]) == MatchWarnings(ts, name, n, ms[..j]) + [w]
  {
    var a, b := MatchWarnings(ts, name, n, ms[..j + 1]), MatchWarnings(ts, name, n, ms[..j]) + [w];
    forall k | 0 <= k < |a|
      ensures a[k] == b[k]
    {
      assert ms[..j + 1][k] == ms[k];
    }
  }

  /** The warnings for one more line. */
  lemma LineStep(name: string, lines: seq<string>, i: nat)
    requires i < |lines|
    ensures LinesWarnings(TypoTable, name, lines[..i + 1]) ==
      LinesWarnings(TypoTable, name, lines[..i]) + MatchWarnings(TypoTable, name, i + 1, Vars(lines[i]))
  {
    assert lines[..i + 1][..i] == lines[..i];
  }

  /** The warnings for one more file. */
  lemma FileStep(es: seq<Entry>, fi: nat)
    requires fi < |es|
    ensures TypoWarnings(TypoTable, es[..fi + 1]) ==
      TypoWarnings(TypoTable, es[..fi]) + LinesWarnings(TypoTable, es[fi].origName, Split(es[fi].contents))
  {
    assert es[..fi + 1][..fi] == es[..fi];
  }
}

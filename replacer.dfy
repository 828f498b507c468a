/** Go's `strings.Replacer` as built by `strings.NewReplacer(old1, new1, ...)`:
    the text is scanned left to right; at each position the earliest pair in
    argument order whose old string starts there is replaced, and scanning
    resumes after it, so replacements never overlap and never apply to text
    already written. An empty old string matches at every position, once. */
module Replacing {
  import opened Text

  /** Whether old string `key` may match at the start of `s`; the empty key is
      skipped right after it has just matched at the same position. */
  predicate Applies(key: string, s: string, skipEmpty: bool) {
    key <= s && !(skipEmpty && key == [])
  }

  /** The index of the earliest pair whose old string matches at the start of `s`. */
  function Lookup(pairs: seq<(string, string)>, s: string, skipEmpty: bool): (r: Option<nat>)
    ensures r.Some? ==> r.value < |pairs| && Applies(pairs[r.value].0, s, skipEmpty)
    ensures r.Some? ==> forall j :: 0 <= j < r.value ==> !Applies(pairs[j].0, s, skipEmpty)
    ensures r.None? ==> forall j :: 0 <= j < |pairs| ==> !Applies(pairs[j].0, s, skipEmpty)
  {
    if pairs == [] then None
    else if Applies(pairs[0].0, s, skipEmpty) then Some(0)
    else match Lookup(pairs[1..], s, skipEmpty)
      case None => None
      case Some(j) => Some(j + 1)
  }

  /** The replacer's scan over the rest `s` of the text; `prevEmpty` records
      that the empty old string has just matched at this position. */
  function Rewrite(pairs: seq<(string, string)>, s: string, prevEmpty: bool): string
    decreases |s|, if prevEmpty then 0 else 1
  {
    match Lookup(pairs, s, prevEmpty)
    case Some(j) =>
      if pairs[j].0 == [] then pairs[j].1 + Rewrite(pairs, s, true)
      else pairs[j].1 + Rewrite(pairs, s[|pairs[j].0|..], false)
    case None =>
      if s == [] then [] else [s[0]] + Rewrite(pairs, s[1..], false)
  }

  /** A replacer: the (old, new) pairs in argument order. */
  datatype Replacer = Replacer(pairs: seq<(string, string)>) {
    /** `Replacer.Replace`. */
    function Replace(s: string): string {
      Rewrite(pairs, s, false)
    }
  }

  /** No old string starts anywhere in `s` (which also rules out the empty one). */
  predicate NoKeyIn(pairs: seq<(string, string)>, s: string) {
    forall j :: 0 <= j < |pairs| ==> !Contains(s, pairs[j].0)
  }

  /** A text in which no old string occurs comes out unchanged. */
  lemma {:induction false} ReplaceUnchanged(r: Replacer, s: string)
    requires NoKeyIn(r.pairs, s)
    ensures r.Replace(s) == s
  {
    RewriteUnchanged(r.pairs, s);
  }

  lemma {:induction false} RewriteUnchanged(pairs: seq<(string, string)>, s: string)
    requires NoKeyIn(pairs, s)
    ensures Rewrite(pairs, s, false) == s
    decreases |s|
  {
    if s != [] {
      assert s[0..] == s;
      assert Lookup(pairs, s, false).None?;
      assert NoKeyIn(pairs, s[1..]);
      RewriteUnchanged(pairs, s[1..]);
    }
  }

  /** No non-empty old string starts at any of the first `n` positions of `s`. */
  predicate NoMatchBefore(pairs: seq<(string, string)>, s: string, n: nat)
    requires n <= |s|
  {
    forall i, j :: 0 <= i < n && 0 <= j < |pairs| ==> !(pairs[j].0 <= s[i..])
  }

  /** The leftmost occurrence wins and the earliest pair wins there: if `x`
      holds no match and old string `k` (pair `j`, with no earlier pair
      matching at that point) follows it, the result is `x`, then `k`'s new
      string, then the replaced remainder. */
  lemma {:induction false} ReplaceLeftmost(r: Replacer, x: string, j: nat, y: string)
    requires forall i :: 0 <= i < |r.pairs| ==> r.pairs[i].0 != []
    requires j < |r.pairs|
    requires NoMatchBefore(r.pairs, x + r.pairs[j].0 + y, |x|)
    requires forall i :: 0 <= i < j ==> !(r.pairs[i].0 <= r.pairs[j].0 + y)
    ensures r.Replace(x + r.pairs[j].0 + y) == x + r.pairs[j].1 + r.Replace(y)
  {
    RewriteLeftmost(r.pairs, x, j, y);
  }

  lemma {:induction false} RewriteLeftmost(pairs: seq<(string, string)>, x: string, j: nat, y: string)
    requires forall i :: 0 <= i < |pairs| ==> pairs[i].0 != []
    requires j < |pairs|
    requires NoMatchBefore(pairs, x + pairs[j].0 + y, |x|)
    requires forall i :: 0 <= i < j ==> !(pairs[i].0 <= pairs[j].0 + y)
    ensures Rewrite(pairs, x + pairs[j].0 + y, false) == x + pairs[j].1 + Rewrite(pairs, y, false)
    decreases |x|
  {
    var k := pairs[j].0;
    var s := x + k + y;
    if x == [] {
      assert s == k + y;
      RewriteAtMatch(pairs, j, y);
    } else {
      var r := Rewrite(pairs, y, false);
      var rest := pairs[j].1 + r;
      NoMatchShift(pairs, s, |x|);
      Assoc3(x, k, y);
      TailOfConcat(x, k + y);
      Assoc3(x[1..], k, y);
      RewriteLeftmost(pairs, x[1..], j, y);
      Assoc3(x[1..], pairs[j].1, r);
      CopyStep(pairs, x, s, rest);
      Assoc3(x, pairs[j].1, r);
    }
  }

  lemma Assoc3(a: string, b: string, c: string)
    ensures a + b + c == a + (b + c)
  {
  }

  lemma TailOfConcat(x: string, m: string)
    requires x != []
    ensures (x + m)[1..] == x[1..] + m
  {
  }

  /** Copying the first character of `x` where no old string starts. */
  lemma CopyStep(pairs: seq<(string, string)>, x: string, s: string, rest: string)
    requires x != [] && s != [] && s[0] == x[0]
    requires forall j :: 0 <= j < |pairs| ==> !(pairs[j].0 <= s)
    requires Rewrite(pairs, s[1..], false) == x[1..] + rest
    ensures Rewrite(pairs, s, false) == x + rest
  {
    RewriteCopiesChar(pairs, s);
    ConsFirst(x, Rewrite(pairs, s[1..], false), rest);
  }

  lemma ConsFirst(x: string, a: string, rest: string)
    requires x != [] && a == x[1..] + rest
    ensures [x[0]] + a == x + rest
  {
    assert x == [x[0]] + x[1..];
  }

  /** Where pair `j` is the earliest to match, its new string is written and
      the scan resumes after its old string. */
  lemma RewriteAtMatch(pairs: seq<(string, string)>, j: nat, y: string)
    requires j < |pairs| && pairs[j].0 != []
    requires forall i :: 0 <= i < j ==> !(pairs[i].0 <= pairs[j].0 + y)
    ensures Rewrite(pairs, pairs[j].0 + y, false) == pairs[j].1 + Rewrite(pairs, y, false)
  {
    var s := pairs[j].0 + y;
    FirstMatch(pairs, s, j);
    assert s[|pairs[j].0|..] == y;
  }

  /** Where no old string starts, the scan copies one character. */
  lemma RewriteCopiesChar(pairs: seq<(string, string)>, s: string)
    requires s != []
    requires forall j :: 0 <= j < |pairs| ==> !(pairs[j].0 <= s)
    ensures Rewrite(pairs, s, false) == [s[0]] + Rewrite(pairs, s[1..], false)
  {
    assert Lookup(pairs, s, false).None?;
  }

  /** Dropping the first character keeps the match-free prefix, one shorter. */
  lemma NoMatchShift(pairs: seq<(string, string)>, s: string, n: nat)
    requires 0 < n <= |s|
    requires NoMatchBefore(pairs, s, n)
    ensures NoMatchBefore(pairs, s[1..], n - 1)
    ensures forall j :: 0 <= j < |pairs| ==> !(pairs[j].0 <= s)
  {
    forall i, i' | 0 <= i < n - 1 && 0 <= i' < |pairs|
      ensures !(pairs[i'].0 <= s[1..][i..])
    {
      assert s[1..][i..] == s[i + 1..];
    }
    forall j | 0 <= j < |pairs| ensures !(pairs[j].0 <= s) {
      assert s[0..] == s;
    }
  }

  lemma FirstMatch(pairs: seq<(string, string)>, s: string, j: nat)
    requires j < |pairs| && pairs[j].0 != [] && pairs[j].0 <= s
    requires forall i :: 0 <= i < j ==> !(pairs[i].0 <= s)
    ensures Lookup(pairs, s, false) == Some(j)
  {
    assert Applies(pairs[j].0, s, false);
  }

  /** An empty old string at the head of the list inserts its new string
      before every character and once at the end. */
  lemma EmptyKeyInterleaves()
    ensures Replacer([("", "X")]).Replace("ab") == "XaXbX"
  {
    var p := [("", "X")];
    assert Lookup(p, "", true).None?;
    assert Rewrite(p, "", false) == "X";
    assert Rewrite(p, "b", true) == "b" + Rewrite(p, "", false);
    assert Rewrite(p, "ab", true) == "a" + Rewrite(p, "b", false);
  }

  /** A replaced text may still contain an old string, when a new string
      contains it: the replacer does not rewrite its own output. */
  lemma OldStringCanRemain()
    ensures Replacer([("tmp1", "docs/tmp1.md")]).Replace("tmp1") == "docs/tmp1.md"
    ensures Contains(Replacer([("tmp1", "docs/tmp1.md")]).Replace("tmp1"), "tmp1")
  {
    var p := [("tmp1", "docs/tmp1.md")];
    assert Lookup(p, "tmp1", false) == Some(0);
    assert Lookup(p, "", false).None?;
    assert "tmp1" <= "docs/tmp1.md"[5..];
    ContainsIff("docs/tmp1.md", "tmp1");
  }
}

/** The pieces of Go's `strings` package, `unicode.IsSpace`, RE2's character
    classes and `%d` formatting that the checkers rely on, over Dafny strings
    (sequences of Unicode scalar values). */
module Text {

  datatype Option<T> = None | Some(value: T)

  /** RE2's `\s`: tab, newline, form feed, carriage return and space. */
  predicate IsRegexSpace(c: char) {
    c == '\t' || c == '\n' || c == '\U{000C}' || c == '\r' || c == ' '
  }

  /** Go's `unicode.IsSpace`, the set `strings.TrimSpace` removes. */
  predicate IsGoSpace(c: char) {
    var n := c as int;
    (9 <= n <= 13) || n == 32 || n == 0x85 || n == 0xA0 || n == 0x1680 ||
    (0x2000 <= n <= 0x200A) || n == 0x2028 || n == 0x2029 || n == 0x202F ||
    n == 0x205F || n == 0x3000
  }

  /** RE2's `\w`, the characters on one side of a `\b` boundary. */
  predicate IsWordChar(c: char) {
    ('0' <= c <= '9') || ('A' <= c <= 'Z') || ('a' <= c <= 'z') || c == '_'
  }

  /** `strings.HasSuffix`. */
  predicate HasSuffix(s: string, suffix: string) {
    |suffix| <= |s| && s[|s| - |suffix|..] == suffix
  }

  /** `strings.Contains`: `sub` occurs somewhere in `s` (the empty string
      occurs everywhere). */
  predicate Contains(s: string, sub: string)
    decreases |s|
  {
    sub <= s || (s != [] && Contains(s[1..], sub))
  }

  /** `Contains` holds exactly when `sub` starts at some position of `s`. */
  lemma {:induction false} ContainsIff(s: string, sub: string)
    ensures Contains(s, sub) <==> exists i :: 0 <= i <= |s| && sub <= s[i..]
    decreases |s|
  {
    assert s[0..] == s;
    if s != [] {
      ContainsIff(s[1..], sub);
      assert forall i :: 1 <= i <= |s| ==> s[i..] == s[1..][i - 1..];
    }
  }

  /** A string never contains a longer one. */
  lemma {:induction false} NotContainsLonger(s: string, sub: string)
    requires |sub| > |s|
    ensures !Contains(s, sub)
    decreases |s|
  {
    if s != [] {
      NotContainsLonger(s[1..], sub);
    }
  }

  /** `strings.Split(s, "\n")`: the pieces between newlines, always at least one. */
  function Split(s: string): (lines: seq<string>)
    ensures |lines| >= 1
    ensures forall k :: 0 <= k < |lines| ==> '\n' !in lines[k]
  {
    if s == [] then [[]]
    else
      var rest := Split(s[1..]);
      if s[0] == '\n' then [[]] + rest else [[s[0]] + rest[0]] + rest[1..]
  }

  /** `strings.Join(lines, "\n")`, the inverse of `Split`. */
  function Join(lines: seq<string>): string
    requires |lines| >= 1
  {
    if |lines| == 1 then lines[0] else lines[0] + "\n" + Join(lines[1..])
  }

  /** Splitting on newlines loses nothing: joining the pieces gives the text back. */
  lemma {:induction false} JoinSplit(s: string)
    ensures Join(Split(s)) == s
  {
    if s != [] {
      var rest := Split(s[1..]);
      JoinSplit(s[1..]);
      if s[0] == '\n' {
        assert Split(s) == [[]] + rest;
        assert Join(Split(s)) == [] + "\n" + Join(rest);
      } else if |rest| == 1 {
        assert Split(s) == [[s[0]] + rest[0]];
      } else {
        assert Split(s) == [[s[0]] + rest[0]] + rest[1..];
        assert Join(rest) == rest[0] + "\n" + Join(rest[1..]);
        assert Join(Split(s)) == ([s[0]] + rest[0]) + "\n" + Join(rest[1..]);
      }
    }
  }

  /** A piece without newlines followed by a newline splits off as one line. */
  lemma {:induction false} SplitLine(a: string, t: string)
    requires '\n' !in a
    ensures Split(a + "\n" + t) == [a] + Split(t)
    ensures Split(a) == [a]
  {
    if a != [] {
      assert (a + "\n" + t)[1..] == a[1..] + "\n" + t;
      SplitLine(a[1..], t);
      assert [a[0]] + a[1..] == a;
    }
  }

  /** Joining newline-free pieces and splitting again gives the pieces back. */
  lemma {:induction false} SplitJoin(lines: seq<string>)
    requires |lines| >= 1
    requires forall k :: 0 <= k < |lines| ==> '\n' !in lines[k]
    ensures Split(Join(lines)) == lines
  {
    if |lines| == 1 {
      SplitLine(lines[0], "");
    } else {
      SplitJoin(lines[1..]);
      SplitLine(lines[0], Join(lines[1..]));
    }
  }

  /** The longest suffix of `s` whose first character fails `p`. */
  function DropLeading(s: string, p: char -> bool): (r: string)
    ensures |r| <= |s| && r == s[|s| - |r|..]
    ensures r == [] || !p(r[0])
    ensures forall i :: 0 <= i < |s| - |r| ==> p(s[i])
  {
    if s != [] && p(s[0]) then DropLeading(s[1..], p) else s
  }

  /** The longest prefix of `s` whose last character fails `p`. */
  function DropTrailing(s: string, p: char -> bool): (r: string)
    ensures |r| <= |s| && r == s[..|r|]
    ensures r == [] || !p(r[|r| - 1])
    ensures forall i :: |r| <= i < |s| ==> p(s[i])
  {
    if s != [] && p(s[|s| - 1]) then DropTrailing(s[..|s| - 1], p) else s
  }

  /** `strings.TrimSpace`. */
  function TrimSpace(s: string): string {
    DropTrailing(DropLeading(s, IsGoSpace), IsGoSpace)
  }

  /** `strings.TrimLeft(s, cutset)`: drops the leading run of characters that
      belong to `cutset` (a set of characters, not a word). */
  function TrimLeft(s: string, cutset: string): (r: string)
    ensures |r| <= |s| && r == s[|s| - |r|..]
    ensures r == [] || r[0] !in cutset
    ensures forall i :: 0 <= i < |s| - |r| ==> s[i] in cutset
  {
    if s != [] && s[0] in cutset then TrimLeft(s[1..], cutset) else s
  }

  /** Trimming a run of cutset characters off `a + x` leaves `x` when `x`
      does not start with one. */
  lemma {:induction false} TrimLeftPrefix(a: string, x: string, cutset: string)
    requires forall i :: 0 <= i < |a| ==> a[i] in cutset
    requires x == [] || x[0] !in cutset
    ensures TrimLeft(a + x, cutset) == x
  {
    if a != [] {
      assert (a + x)[1..] == a[1..] + x;
      TrimLeftPrefix(a[1..], x, cutset);
    }
  }

  /** Dropping a leading run that `p` accepts stops where `p` first fails. */
  lemma {:induction false} DropLeadingPrefix(a: string, x: string, p: char -> bool)
    requires forall i :: 0 <= i < |a| ==> p(a[i])
    requires x == [] || !p(x[0])
    ensures DropLeading(a + x, p) == x
  {
    if a != [] {
      assert (a + x)[1..] == a[1..] + x;
      DropLeadingPrefix(a[1..], x, p);
    }
  }

  /** Dropping a trailing run that `p` accepts stops where `p` last fails. */
  lemma {:induction false} DropTrailingSuffix(x: string, b: string, p: char -> bool)
    requires forall i :: 0 <= i < |b| ==> p(b[i])
    requires x == [] || !p(x[|x| - 1])
    ensures DropTrailing(x + b, p) == x
  {
    if b != [] {
      assert (x + b)[..|x + b| - 1] == x + b[..|b| - 1];
      DropTrailingSuffix(x, b[..|b| - 1], p);
    }
  }

  /** Trimming `a + k + b`, where `a` and `b` are white space and `k` neither
      starts nor ends with white space, gives `k`. */
  lemma TrimSpaceSurrounded(a: string, k: string, b: string)
    requires forall i :: 0 <= i < |a| ==> IsGoSpace(a[i])
    requires forall i :: 0 <= i < |b| ==> IsGoSpace(b[i])
    requires k != [] && !IsGoSpace(k[0]) && !IsGoSpace(k[|k| - 1])
    ensures TrimSpace(a + k + b) == k
  {
    assert a + k + b == a + (k + b);
    DropLeadingPrefix(a, k + b, IsGoSpace);
    DropTrailingSuffix(k, b, IsGoSpace);
  }

  /** The ASCII digit for `d`. */
  function Digit(d: nat): char
    requires d < 10
  {
    "0123456789"[d]
  }

  /** `%d` of a non-negative integer: decimal digits, no leading zero. */
  function Decimal(n: nat): (s: string)
    ensures |s| >= 1
    ensures forall i :: 0 <= i < |s| ==> '0' <= s[i] <= '9'
    ensures s[0] == '0' ==> n == 0
  {
    if n < 10 then [Digit(n)] else Decimal(n / 10) + [Digit(n % 10)]
  }

  /** The number a string of decimal digits denotes. */
  function DecimalValue(s: string): nat
    requires forall i :: 0 <= i < |s| ==> '0' <= s[i] <= '9'
  {
    if s == [] then 0
    else DecimalValue(s[..|s| - 1]) * 10 + (s[|s| - 1] as int - '0' as int)
  }

  /** Line numbers printed with `%d` read back as the same number. */
  lemma {:induction false} DecimalRoundTrip(n: nat)
    ensures DecimalValue(Decimal(n)) == n
  {
    if n >= 10 {
      var s := Decimal(n);
      DecimalRoundTrip(n / 10);
      assert s[..|s| - 1] == Decimal(n / 10);
    }
  }
}

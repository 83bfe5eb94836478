/** The Python `str` operations the scraper and the search index use. */
module Text {

  /** `c.isspace()`: the characters `str.strip()` removes by default. */
  predicate IsSpace(c: char) {
    || '\t' <= c <= '\r'
    || '\U{1C}' <= c <= ' '
    || c == '\U{85}' || c == '\U{A0}' || c == '\U{1680}'
    || '\U{2000}' <= c <= '\U{200A}'
    || c == '\U{2028}' || c == '\U{2029}' || c == '\U{202F}'
    || c == '\U{205F}' || c == '\U{3000}'
  }

  predicate AllSpace(s: string) {
    forall i :: 0 <= i < |s| ==> IsSpace(s[i])
  }

  /** Neither the first nor the last character is whitespace. */
  predicate Trimmed(s: string) {
    s == [] || (!IsSpace(s[0]) && !IsSpace(s[|s| - 1]))
  }

  /** `s.strip()`: drops the leading and the trailing whitespace. */
  function Strip(s: string): (r: string)
    ensures Trimmed(r)
    ensures |r| <= |s| && forall c :: c in r ==> c in s
    ensures AllSpace(s) <==> r == []
    ensures Trimmed(s) ==> r == s
  {
    if s != [] && IsSpace(s[0]) then
      assert AllSpace(s) <==> AllSpace(s[1..]);
      Strip(s[1..])
    else if s != [] && IsSpace(s[|s| - 1]) then
      assert AllSpace(s) <==> AllSpace(s[..|s| - 1]);
      Strip(s[..|s| - 1])
    else s
  }

  /** `s.strip()` is `s` with a whitespace prefix and a whitespace suffix cut off, nothing else. */
  lemma {:induction false} StripInfix(s: string) returns (a: nat, b: nat)
    ensures a <= b <= |s| && Strip(s) == s[a..b]
    ensures AllSpace(s[..a]) && AllSpace(s[b..])
  {
    if s != [] && IsSpace(s[0]) {
      var a', b' := StripInfix(s[1..]);
      a, b := a' + 1, b' + 1;
      DropFront(s, a', b');
    } else if s != [] && IsSpace(s[|s| - 1]) {
      a, b := StripInfix(s[..|s| - 1]);
      DropBack(s, a, b);
    } else {
      a, b := 0, |s|;
      assert s[0..|s|] == s;
    }
  }

  /** A cut of `s[1..]` between whitespace ends is a cut of `s` when `s` starts with whitespace. */
  lemma DropFront(s: string, a: nat, b: nat)
    requires s != [] && IsSpace(s[0]) && a <= b <= |s| - 1
    requires AllSpace(s[1..][..a]) && AllSpace(s[1..][b..])
    ensures s[1..][a..b] == s[a + 1..b + 1]
    ensures AllSpace(s[..a + 1]) && AllSpace(s[b + 1..])
  {
    var n := a + 1;
    forall i | 0 <= i < n ensures IsSpace(s[..n][i]) {
      if i > 0 {
        assert s[..n][i] == s[1..][..a][i - 1];
      }
    }
    assert s[b + 1..] == s[1..][b..];
  }

  /** A cut of `s[..|s| - 1]` between whitespace ends is a cut of `s` when `s` ends with whitespace. */
  lemma DropBack(s: string, a: nat, b: nat)
    requires s != [] && IsSpace(s[|s| - 1]) && a <= b <= |s| - 1
    requires AllSpace(s[..|s| - 1][..a]) && AllSpace(s[..|s| - 1][b..])
    ensures s[..|s| - 1][a..b] == s[a..b]
    ensures AllSpace(s[..a]) && AllSpace(s[b..])
  {
    assert s[..a] == s[..|s| - 1][..a];
    forall i | 0 <= i < |s| - b ensures IsSpace(s[b..][i]) {
      if i < |s| - 1 - b {
        assert s[b..][i] == s[..|s| - 1][b..][i];
      }
    }
  }

  /** Stripping twice is stripping once. */
  lemma StripIdempotent(s: string)
    ensures Strip(Strip(s)) == Strip(s)
  {
  }

  /** `s.startswith(p)`. */
  predicate StartsWith(s: string, p: string) {
    |p| <= |s| && s[..|p|] == p
  }

  /** The number of occurrences of `c` in `s`. */
  function Count(s: string, c: char): nat {
    if s == [] then 0 else (if s[0] == c then 1 else 0) + Count(s[1..], c)
  }

  /** `s.split(c)` with an explicit one-character separator. */
  function Split(s: string, c: char): (r: seq<string>)
    ensures |r| == Count(s, c) + 1
    ensures forall i :: 0 <= i < |r| ==> c !in r[i]
  {
    if s == [] then [""]
    else
      var rest := Split(s[1..], c);
      if s[0] == c then [""] + rest
      else [[s[0]] + rest[0]] + rest[1..]
  }

  /** `sep.join(xs)`. */
  function Join(xs: seq<string>, sep: string): string {
    if xs == [] then ""
    else if |xs| == 1 then xs[0]
    else xs[0] + sep + Join(xs[1..], sep)
  }

  /** Joining the pieces of a split with the separator gives back the text. */
  lemma {:induction false} JoinSplit(s: string, c: char)
    ensures Join(Split(s, c), [c]) == s
  {
    if s != [] {
      var rest := Split(s[1..], c);
      JoinSplit(s[1..], c);
      if s[0] == c {
        assert ([""] + rest)[1..] == rest;
      } else if |rest| > 1 {
        assert ([[s[0]] + rest[0]] + rest[1..])[1..] == rest[1..];
      }
    }
  }

  /** Splitting a join of separator-free pieces gives back the pieces. */
  lemma {:induction false} SplitJoin(xs: seq<string>, c: char)
    requires |xs| >= 1
    requires forall i :: 0 <= i < |xs| ==> c !in xs[i]
    ensures Split(Join(xs, [c]), c) == xs
  {
    if |xs| == 1 {
      SplitSeparatorFree(xs[0], c);
    } else {
      SplitJoin(xs[1..], c);
      var tail := Join(xs[1..], [c]);
      SplitPrefix(xs[0], tail, c);
    }
  }

  lemma {:induction false} SplitSeparatorFree(s: string, c: char)
    requires c !in s
    ensures Split(s, c) == [s]
  {
    if s != [] {
      assert c !in s[1..];
      SplitSeparatorFree(s[1..], c);
      assert [s[0]] + s[1..] == s;
    }
  }

  lemma {:induction false} SplitPrefix(p: string, t: string, c: char)
    requires c !in p
    ensures Split(p + [c] + t, c) == [p] + Split(t, c)
  {
    if p == [] {
      assert ([] + [c] + t)[1..] == t;
    } else {
      assert (p + [c] + t)[0] == p[0];
      assert (p + [c] + t)[1..] == p[1..] + [c] + t;
      assert c !in p[1..];
      SplitPrefix(p[1..], t, c);
      assert [p[0]] + p[1..] == p;
    }
  }

  /** `c.lower()` on ASCII letters; other characters are kept. */
  function LowerChar(c: char): char {
    if 'A' <= c <= 'Z' then (c as int + 32) as char else c
  }

  /**
   * `s.lower()` restricted to ASCII letters: no upper-case letter is left,
   * every other character stays, and a changed character moved to its
   * lower-case partner.
   */
  function Lower(s: string): (r: string)
    ensures |r| == |s|
    ensures forall i :: 0 <= i < |r| ==> !('A' <= r[i] <= 'Z')
    ensures forall i :: 0 <= i < |s| && !('A' <= s[i] <= 'Z') ==> r[i] == s[i]
    ensures forall i :: 0 <= i < |s| ==> r[i] == s[i] || r[i] as int == s[i] as int + 32
  {
    seq(|s|, i requires 0 <= i < |s| => LowerChar(s[i]))
  }

  /** Lowering twice is lowering once. */
  lemma LowerIdempotent(s: string)
    ensures Lower(Lower(s)) == Lower(s)
  {
  }

  /** Lowering neither creates nor removes an occurrence of a character that is not a letter. */
  lemma LowerKeeps(s: string, c: char)
    requires !('A' <= c <= 'Z') && !('a' <= c <= 'z')
    ensures forall i :: 0 <= i < |s| ==> (Lower(s)[i] == c <==> s[i] == c)
  {
  }
}

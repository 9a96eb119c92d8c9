/**
 * The few JavaScript string operations the front-end relies on:
 * `String.prototype.trim`, `split` with a one-character separator,
 * `Array.prototype.join`, `indexOf` and `substr(start)`.
 * Strings are sequences of Unicode scalar values.
 */
module JsStrings {

  /** WhiteSpace and LineTerminator code points (sections 12.2 and 12.3 of ECMA-262):
      the characters `trim` removes and `parseInt` skips. */
  predicate IsWhiteSpace(c: char) {
    var n := c as int;
    n == 0x09 || n == 0x0B || n == 0x0C || n == 0x20 || n == 0xA0 || n == 0xFEFF   // WhiteSpace
    || n == 0x1680 || (0x2000 <= n <= 0x200A) || n == 0x202F || n == 0x205F || n == 0x3000  // category Zs
    || n == 0x0A || n == 0x0D || n == 0x2028 || n == 0x2029                     // LineTerminator
  }

  predicate AllWhiteSpace(s: string) {
    forall i :: 0 <= i < |s| ==> IsWhiteSpace(s[i])
  }

  /** Drops leading white space. */
  function TrimStart(s: string): (r: string)
    ensures |r| <= |s|
  {
    if s != [] && IsWhiteSpace(s[0]) then TrimStart(s[1..]) else s
  }

  /** Drops trailing white space. */
  function TrimEnd(s: string): (r: string)
    ensures |r| <= |s|
  {
    if s != [] && IsWhiteSpace(s[|s| - 1]) then TrimEnd(s[..|s| - 1]) else s
  }

  /** `s.trim()` */
  function Trim(s: string): string {
    TrimEnd(TrimStart(s))
  }

  /** `TrimStart` keeps the suffix of `s` after its longest white prefix. */
  lemma {:induction false} TrimStartSpec(s: string)
    ensures var r := TrimStart(s);
      && r == s[|s| - |r|..]
      && AllWhiteSpace(s[..|s| - |r|])
      && (r != [] ==> !IsWhiteSpace(r[0]))
  {
    if s != [] && IsWhiteSpace(s[0]) {
      var t := s[1..];
      TrimStartSpec(t);
      var r := TrimStart(t);
      assert s[|s| - |r|..] == t[|t| - |r|..];
      assert s[..|s| - |r|] == [s[0]] + t[..|t| - |r|];
    }
  }

  /** `TrimEnd` keeps the prefix of `s` before its longest white suffix. */
  lemma {:induction false} TrimEndSpec(s: string)
    ensures var r := TrimEnd(s);
      && r == s[..|r|]
      && AllWhiteSpace(s[|r|..])
      && (r != [] ==> !IsWhiteSpace(r[|r| - 1]))
  {
    if s != [] && IsWhiteSpace(s[|s| - 1]) {
      var t := s[..|s| - 1];
      TrimEndSpec(t);
      var r := TrimEnd(t);
      assert s[..|r|] == t[..|r|];
      assert s[|r|..] == t[|r|..] + [s[|s| - 1]];
    }
  }

  /** `s.trim()` is empty exactly when `s` consists of white space only. */
  lemma TrimEmptyIff(s: string)
    ensures Trim(s) == [] <==> AllWhiteSpace(s)
  {
    TrimStartSpec(s);
    var t := TrimStart(s);
    TrimEndSpec(t);
    if Trim(s) == [] {
      assert AllWhiteSpace(t[0..]);
      assert s == s[..|s| - |t|] + t;
    }
  }

  /** The trimmed text is a slice of the input that neither starts nor ends with white space. */
  lemma TrimIsInnerSlice(s: string)
    ensures exists i, j :: 0 <= i <= j <= |s| && Trim(s) == s[i..j]
    ensures Trim(s) != [] ==> !IsWhiteSpace(Trim(s)[0]) && !IsWhiteSpace(Trim(s)[|Trim(s)| - 1])
  {
    TrimStartSpec(s);
    var t := TrimStart(s);
    TrimEndSpec(t);
    var r := TrimEnd(t);
    assert r == s[|s| - |t|..|s| - |t| + |r|];
  }

  /** `s.split(c)` for a one-character separator `c`: the pieces between the occurrences of `c`.
      The empty string splits into one empty piece. */
  function Split(s: string, c: char): (r: seq<string>)
    ensures |r| >= 1
    ensures forall i :: 0 <= i < |r| ==> c !in r[i]
  {
    if s == [] then [""]
    else
      var front := Split(s[..|s| - 1], c);
      if s[|s| - 1] == c then front + [""]
      else front[..|front| - 1] + [front[|front| - 1] + [s[|s| - 1]]]
  }

  /** `xs.join(c)` */
  function Join(xs: seq<string>, c: char): string {
    if xs == [] then ""
    else if |xs| == 1 then xs[0]
    else Join(xs[..|xs| - 1], c) + [c] + xs[|xs| - 1]
  }

  /** A string without the separator is a single piece. */
  lemma {:induction false} SplitNoSeparator(s: string, c: char)
    requires c !in s
    ensures Split(s, c) == [s]
  {
    if s != [] {
      SplitNoSeparator(s[..|s| - 1], c);
      assert s[..|s| - 1] + [s[|s| - 1]] == s;
    }
  }

  /** Splitting at the last separator. */
  lemma {:induction false} SplitAtLast(a: string, c: char, b: string)
    requires c !in b
    ensures Split(a + [c] + b, c) == Split(a, c) + [b]
  {
    if b == [] {
      assert (a + [c] + b)[..|a + [c] + b| - 1] == a;
    } else {
      var b' := b[..|b| - 1];
      SplitAtLast(a, c, b');
      var s := a + [c] + b;
      assert s[..|s| - 1] == a + [c] + b';
      assert b' + [b[|b| - 1]] == b;
    }
  }

  /** How `Split` treats one more character at the end. */
  lemma SplitSnoc(s: string, x: char, c: char)
    ensures Split(s + [x], c) ==
      if x == c then Split(s, c) + [""]
      else var f := Split(s, c); f[..|f| - 1] + [f[|f| - 1] + [x]]
  {
    assert (s + [x])[..|s + [x]| - 1] == s;
  }

  /** Splitting at the first separator: the first piece is the text before the first `c`. */
  lemma {:induction false} SplitAtFirst(a: string, c: char, b: string)
    requires c !in a
    ensures Split(a + [c] + b, c) == [a] + Split(b, c)
  {
    if b == [] {
      SplitNoSeparator(a, c);
      SplitSnoc(a, c, c);
      assert a + [c] + b == a + [c];
    } else {
      var b', last := b[..|b| - 1], b[|b| - 1];
      var w' := a + [c] + b';
      assert b == b' + [last];
      assert a + [c] + b == w' + [last];
      SplitAtFirst(a, c, b');
      var f := Split(b', c);
      assert Split(w', c) == [a] + f;
      SplitSnoc(w', last, c);
      SplitSnoc(b', last, c);
      if last == c {
        assert Split(w' + [last], c) == [a] + f + [""];
      } else {
        var whole := [a] + f;
        assert whole[..|whole| - 1] == [a] + f[..|f| - 1];
        assert whole[|whole| - 1] == f[|f| - 1];
        assert Split(w' + [last], c) == [a] + (f[..|f| - 1] + [f[|f| - 1] + [last]]);
      }
    }
  }

  /** Joining the pieces of a split gives back the string. */
  lemma {:induction false} JoinSplit(s: string, c: char)
    ensures Join(Split(s, c), c) == s
  {
    if s != [] {
      var s' := s[..|s| - 1];
      JoinSplit(s', c);
      assert s' + [s[|s| - 1]] == s;
      var front := Split(s', c);
      if s[|s| - 1] != c {
        var init := front[..|front| - 1];
        var r := init + [front[|front| - 1] + [s[|s| - 1]]];
        if |front| == 1 {
          assert Join(front, c) == front[0];
        } else {
          assert r[..|r| - 1] == init && front[..|front| - 1] == init;
        }
      } else {
        var r := front + [""];
        assert r[..|r| - 1] == front;
      }
    }
  }

  /** Splitting a join of separator-free pieces gives back the pieces. */
  lemma {:induction false} SplitJoin(xs: seq<string>, c: char)
    requires |xs| >= 1
    requires forall i :: 0 <= i < |xs| ==> c !in xs[i]
    ensures Split(Join(xs, c), c) == xs
  {
    if |xs| == 1 {
      SplitNoSeparator(xs[0], c);
    } else {
      var init := xs[..|xs| - 1];
      SplitJoin(init, c);
      SplitAtLast(Join(init, c), c, xs[|xs| - 1]);
      assert init + [xs[|xs| - 1]] == xs;
    }
  }

  /** `sub` occurs in `s` at position `i`. */
  predicate MatchesAt(s: string, sub: string, i: int) {
    0 <= i && i + |sub| <= |s| && s[i..i + |sub|] == sub
  }

  /** `s.indexOf(sub, from)`: the first position at or after `from` where `sub` occurs, or -1. */
  function IndexFrom(s: string, sub: string, from: nat): (r: int)
    decreases |s| - from
    ensures r == -1 || (from <= r && MatchesAt(s, sub, r))
  {
    if from + |sub| > |s| then -1
    else if s[from..from + |sub|] == sub then from
    else IndexFrom(s, sub, from + 1)
  }

  /** `indexOf` reports the first occurrence: no occurrence at or after `from` comes
      before the position it returns. */
  lemma {:induction false} IndexFromFirst(s: string, sub: string, from: nat, i: int)
    requires from <= i && MatchesAt(s, sub, i)
    ensures from <= IndexFrom(s, sub, from) <= i
    decreases |s| - from
  {
    if from < i && s[from..from + |sub|] != sub {
      IndexFromFirst(s, sub, from + 1, i);
    }
  }

  /** `s.indexOf(sub)` */
  function IndexOf(s: string, sub: string): int {
    IndexFrom(s, sub, 0)
  }

  /** `s.indexOf(sub) > -1`: `sub` occurs anywhere in `s`. */
  predicate Contains(s: string, sub: string) {
    IndexOf(s, sub) > -1
  }

  /** `indexOf` finds an occurrence exactly when there is one. */
  lemma ContainsIff(s: string, sub: string, i: int)
    requires MatchesAt(s, sub, i)
    ensures Contains(s, sub) && 0 <= IndexOf(s, sub) <= i
  {
    IndexFromFirst(s, sub, 0, i);
  }

  /** `s.indexOf(p) == 0` is the test "`s` starts with `p`". */
  lemma IndexOfZeroIffPrefix(s: string, p: string)
    ensures IndexOf(s, p) == 0 <==> p <= s
  {
    if p <= s {
      assert MatchesAt(s, p, 0);
      IndexFromFirst(s, p, 0, 0);
    }
  }

  /** `s.substr(start)` for a non-negative start: the suffix from `start`, or "" beyond the end. */
  function Substr(s: string, start: nat): string
  {
    if start >= |s| then "" else s[start..]
  }
}

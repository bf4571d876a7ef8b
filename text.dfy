/**
 * The JavaScript string operations the pantry code relies on, over `seq<char>`:
 * `trim`, `toLowerCase`, `includes`, `split` on one character, `join`, and the
 * default order `Array.prototype.sort` uses for strings.
 */
module Text {

  /** The characters `String.prototype.trim` removes: WhiteSpace and LineTerminator. */
  predicate IsWhitespace(c: char) {
    || c == '\t' || c == '\n' || c == '\U{B}' || c == '\U{C}' || c == '\r' || c == ' '
    || c == '\U{A0}' || c == '\U{1680}' || ('\U{2000}' <= c <= '\U{200A}')
    || c == '\U{2028}' || c == '\U{2029}' || c == '\U{202F}' || c == '\U{205F}'
    || c == '\U{3000}' || c == '\U{FEFF}'
  }

  /** Leading whitespace removed: what is left does not start with whitespace. */
  function TrimStart(s: string): (r: string)
    ensures r == [] || !IsWhitespace(r[0])
  {
    if |s| > 0 && IsWhitespace(s[0]) then TrimStart(s[1..]) else s
  }

  /** `TrimStart` keeps a suffix of `s` and cuts off only whitespace. */
  lemma {:induction false} TrimStartSuffix(s: string)
    ensures |TrimStart(s)| <= |s| && TrimStart(s) == s[|s| - |TrimStart(s)|..]
    ensures forall k | 0 <= k < |s| - |TrimStart(s)| :: IsWhitespace(s[k])
  {
    if |s| > 0 && IsWhitespace(s[0]) {
      TrimStartSuffix(s[1..]);
      assert s[1..][|s| - 1 - |TrimStart(s)|..] == s[|s| - |TrimStart(s)|..];
      assert forall k | 1 <= k < |s| - |TrimStart(s)| :: s[k] == s[1..][k - 1];
    }
  }

  /** Trailing whitespace removed: what is left does not end with whitespace. */
  function TrimEnd(s: string): (r: string)
    ensures r == [] || !IsWhitespace(r[|r| - 1])
  {
    if |s| > 0 && IsWhitespace(s[|s| - 1]) then TrimEnd(s[..|s| - 1]) else s
  }

  /** `TrimEnd` keeps a prefix of `s` and cuts off only whitespace. */
  lemma {:induction false} TrimEndPrefix(s: string)
    ensures |TrimEnd(s)| <= |s| && TrimEnd(s) == s[..|TrimEnd(s)|]
    ensures forall k | |TrimEnd(s)| <= k < |s| :: IsWhitespace(s[k])
  {
    if |s| > 0 && IsWhitespace(s[|s| - 1]) {
      TrimEndPrefix(s[..|s| - 1]);
      assert s[..|s| - 1][..|TrimEnd(s)|] == s[..|TrimEnd(s)|];
      assert forall k | |TrimEnd(s)| <= k < |s| - 1 :: s[k] == s[..|s| - 1][k];
    }
  }

  predicate IsTrimmed(s: string) {
    s == [] || (!IsWhitespace(s[0]) && !IsWhitespace(s[|s| - 1]))
  }

  /** `s.trim()`: no whitespace at either end, and a no-op on trimmed input. */
  function Trim(s: string): (r: string)
    ensures IsTrimmed(r)
    ensures IsTrimmed(s) ==> r == s
  {
    var t := TrimStart(s);
    TrimEndPrefix(t);
    TrimEnd(t)
  }

  /** `trim` only cuts characters away: a character absent from `s` is absent from `s.trim()`. */
  lemma TrimKeepsAbsent(s: string, c: char)
    requires c !in s
    ensures c !in Trim(s)
  {
    TrimStartSuffix(s);
    var t := TrimStart(s);
    assert c !in t;
    TrimEndPrefix(t);
  }

  /** `trim` yields the empty string exactly on whitespace-only input. */
  lemma TrimEmptyIff(s: string)
    ensures Trim(s) == [] <==> forall k | 0 <= k < |s| :: IsWhitespace(s[k])
  {
    TrimStartSuffix(s);
    var t := TrimStart(s);
    TrimEndPrefix(t);
    if t != [] {
      assert !IsWhitespace(s[|s| - |t|]);
      assert TrimEnd(t) != [];
    }
  }

  /** Whitespace in front of a trimmed, non-empty string is exactly what `trim` removes. */
  lemma {:induction false} TrimAfterWhitespace(w: string, t: string)
    requires forall k | 0 <= k < |w| :: IsWhitespace(w[k])
    requires t != [] && IsTrimmed(t)
    ensures Trim(w + t) == t
  {
    TrimStartAfterWhitespace(w, t);
  }

  lemma {:induction false} TrimStartAfterWhitespace(w: string, t: string)
    requires forall k | 0 <= k < |w| :: IsWhitespace(w[k])
    requires t != [] && !IsWhitespace(t[0])
    ensures TrimStart(w + t) == t
  {
    if w == [] {
      assert w + t == t;
    } else {
      assert (w + t)[1..] == w[1..] + t;
      TrimStartAfterWhitespace(w[1..], t);
    }
  }

  /** ASCII case mapping of `toLowerCase`. */
  function LowerChar(c: char): char {
    if 'A' <= c <= 'Z' then (c as int + 32) as char else c
  }

  function UpperChar(c: char): char {
    if 'a' <= c <= 'z' then (c as int - 32) as char else c
  }

  /** `s.toLowerCase()`: the same length, each character mapped on its own. */
  function ToLower(s: string): (r: string)
    ensures |r| == |s|
    ensures forall k | 0 <= k < |s| :: r[k] == LowerChar(s[k])
  {
    seq(|s|, k requires 0 <= k < |s| => LowerChar(s[k]))
  }

  function ToUpper(s: string): (r: string)
    ensures |r| == |s|
    ensures forall k | 0 <= k < |s| :: r[k] == UpperChar(s[k])
  {
    seq(|s|, k requires 0 <= k < |s| => UpperChar(s[k]))
  }

  lemma ToLowerConcat(a: string, b: string)
    ensures ToLower(a + b) == ToLower(a) + ToLower(b)
  {
    assert forall k | 0 <= k < |a + b| :: ToLower(a + b)[k] == (ToLower(a) + ToLower(b))[k];
  }

  /** Lower-casing an upper-cased string is lower-casing the original: case is forgotten. */
  lemma ToLowerForgetsCase(s: string)
    ensures ToLower(ToUpper(s)) == ToLower(s)
  {
  }

  /** `trim` and `toLowerCase` commute, since case mapping neither makes nor removes whitespace. */
  lemma TrimToLowerCommute(s: string)
    ensures ToLower(Trim(s)) == Trim(ToLower(s))
  {
    TrimStartToLower(s);
    TrimEndToLower(TrimStart(s));
  }

  lemma {:induction false} TrimStartToLower(s: string)
    ensures ToLower(TrimStart(s)) == TrimStart(ToLower(s))
  {
    if |s| > 0 && IsWhitespace(s[0]) {
      assert ToLower(s)[1..] == ToLower(s[1..]);
      TrimStartToLower(s[1..]);
    }
  }

  lemma {:induction false} TrimEndToLower(s: string)
    ensures ToLower(TrimEnd(s)) == TrimEnd(ToLower(s))
  {
    if |s| > 0 && IsWhitespace(s[|s| - 1]) {
      assert ToLower(s)[..|s| - 1] == ToLower(s[..|s| - 1]);
      TrimEndToLower(s[..|s| - 1]);
    }
  }

  predicate StartsWith(s: string, p: string) {
    |p| <= |s| && s[..|p|] == p
  }

  /** `s.includes(q)`, scanning `s` from the left. */
  predicate Includes(s: string, q: string) {
    StartsWith(s, q) || (|s| > 0 && Includes(s[1..], q))
  }

  /** `includes` holds exactly when `q` occurs in `s` at some position. */
  lemma {:induction false} IncludesIff(s: string, q: string)
    ensures Includes(s, q) <==> exists k | 0 <= k <= |s| :: StartsWith(s[k..], q)
  {
    if |s| > 0 {
      IncludesIff(s[1..], q);
      if Includes(s[1..], q) {
        var k :| 0 <= k <= |s[1..]| && StartsWith(s[1..][k..], q);
        assert s[1..][k..] == s[k + 1..];
      }
      if k :| 0 < k <= |s| && StartsWith(s[k..], q) {
        assert s[1..][k - 1..] == s[k..];
      }
    }
    assert s[0..] == s;
  }

  lemma {:induction false} IncludesConcatLeft(a: string, b: string, q: string)
    requires Includes(a, q)
    ensures Includes(a + b, q)
  {
    if StartsWith(a, q) {
      assert (a + b)[..|q|] == a[..|q|];
    } else {
      assert (a + b)[1..] == a[1..] + b;
      IncludesConcatLeft(a[1..], b, q);
    }
  }

  lemma {:induction false} IncludesConcatRight(a: string, b: string, q: string)
    requires Includes(b, q)
    ensures Includes(a + b, q)
  {
    if a != [] {
      assert (a + b)[1..] == a[1..] + b;
      IncludesConcatRight(a[1..], b, q);
    } else {
      assert a + b == b;
    }
  }

  /** `s.split(sep)`: at least one segment, none containing `sep`. */
  function SplitOn(s: string, sep: char): (r: seq<string>)
    ensures |r| >= 1
    ensures forall k | 0 <= k < |r| :: sep !in r[k]
  {
    if s == [] then [[]]
    else
      var rest := SplitOn(s[1..], sep);
      if s[0] == sep then [[]] + rest else [[s[0]] + rest[0]] + rest[1..]
  }

  /** `parts.join(sep)`. */
  function Join(parts: seq<string>, sep: string): string {
    if |parts| == 0 then []
    else if |parts| == 1 then parts[0]
    else parts[0] + sep + Join(parts[1..], sep)
  }

  /** Joining the pieces of a split with the separator gives back the input. */
  lemma {:induction false} JoinSplit(s: string, sep: char)
    ensures Join(SplitOn(s, sep), [sep]) == s
  {
    if s != [] {
      var rest := SplitOn(s[1..], sep);
      JoinSplit(s[1..], sep);
      if s[0] == sep {
        assert SplitOn(s, sep) == [[]] + rest;
        assert s == [] + [sep] + Join(rest, [sep]);
      } else {
        var r := SplitOn(s, sep);
        assert r == [[s[0]] + rest[0]] + rest[1..];
        if |rest| == 1 {
          assert s == [s[0]] + rest[0];
        } else {
          assert rest == [rest[0]] + rest[1..];
          assert Join(rest, [sep]) == rest[0] + [sep] + Join(rest[1..], [sep]);
          assert s == [s[0]] + Join(rest, [sep]);
        }
      }
    }
  }

  /** Splitting text with no separator in front: the text heads the first segment. */
  lemma {:induction false} SplitOnPrefix(t: string, u: string, sep: char)
    requires sep !in t
    ensures SplitOn(t + u, sep) == [t + SplitOn(u, sep)[0]] + SplitOn(u, sep)[1..]
  {
    if t == [] {
      assert t + u == u;
      var r := SplitOn(u, sep);
      assert r == [r[0]] + r[1..];
      assert t + r[0] == r[0];
    } else {
      assert (t + u)[1..] == t[1..] + u;
      SplitOnPrefix(t[1..], u, sep);
      var r := SplitOn(u, sep);
      var rest := SplitOn(t[1..] + u, sep);
      assert rest[0] == t[1..] + r[0] && rest[1..] == r[1..];
      assert [t[0]] + rest[0] == t + r[0];
    }
  }

  lemma SplitOnSep(t: string, u: string, sep: char)
    requires sep !in t
    ensures SplitOn(t + [sep] + u, sep) == [t] + SplitOn(u, sep)
  {
    SplitOnPrefix(t, [sep] + u, sep);
    assert t + [sep] + u == t + ([sep] + u);
    assert ([sep] + u)[1..] == u;
    assert SplitOn([sep] + u, sep) == [[]] + SplitOn(u, sep);
    assert t + [] == t;
  }

  lemma SplitOnNoSep(t: string, sep: char)
    requires sep !in t
    ensures SplitOn(t, sep) == [t]
  {
    SplitOnPrefix(t, [], sep);
    assert t + [] == t;
  }

  /** Splitting a join gives back the parts, when no part contains the separator. */
  lemma {:induction false} SplitJoin(parts: seq<string>, sep: char)
    requires |parts| >= 1
    requires forall k | 0 <= k < |parts| :: sep !in parts[k]
    ensures SplitOn(Join(parts, [sep]), sep) == parts
  {
    if |parts| == 1 {
      SplitOnNoSep(parts[0], sep);
    } else {
      SplitJoin(parts[1..], sep);
      SplitOnSep(parts[0], Join(parts[1..], [sep]), sep);
    }
  }

  /**
   * The order in which `Array.prototype.sort()` without a comparator puts
   * strings: lexicographic by character code.
   */
  predicate LexLe(a: string, b: string) {
    a == [] || (b != [] && (a[0] < b[0] || (a[0] == b[0] && LexLe(a[1..], b[1..]))))
  }

  lemma {:induction false} LexLeTotal(a: string, b: string)
    ensures LexLe(a, b) || LexLe(b, a)
  {
    if a != [] && b != [] && a[0] == b[0] {
      LexLeTotal(a[1..], b[1..]);
    }
  }

  lemma {:induction false} LexLeTransitive(a: string, b: string, c: string)
    requires LexLe(a, b) && LexLe(b, c)
    ensures LexLe(a, c)
  {
    if a != [] && a[0] == b[0] && b[0] == c[0] {
      LexLeTransitive(a[1..], b[1..], c[1..]);
    }
  }

  lemma {:induction false} LexLeAntisymmetric(a: string, b: string)
    requires LexLe(a, b) && LexLe(b, a)
    ensures a == b
  {
    if a != [] {
      LexLeAntisymmetric(a[1..], b[1..]);
      assert a == [a[0]] + a[1..];
      assert b == [b[0]] + b[1..];
    }
  }
}

/** Option and Result, used for the source's null returns and caught exceptions. */
module Wrappers {

  datatype Option<+T> = None | Some(value: T)

  datatype Result<+T, +E> = Ok(value: T) | Err(error: E)
}

/**
 * The .NET string operations the shell relies on, written out over `seq<char>`.
 * Every comparison here is ordinal (character by character). `string.Replace` and
 * `string.Contains` are ordinal in .NET too; `string.StartsWith(string)` is not, and is
 * taken as ordinal all the same.
 */
module Strings {

  /** `char.IsWhiteSpace`: the Unicode space, line and paragraph separators plus the
      control characters U+0009..U+000D and U+0085. The regular-expression class `\s`
      denotes the same set. */
  predicate IsWhiteSpace(c: char) {
    ('\t' <= c <= '\r') || c == ' ' || c == '\U{0085}' || c == '\U{00A0}' || c == '\U{1680}'
    || ('\U{2000}' <= c <= '\U{200A}') || c == '\U{2028}' || c == '\U{2029}'
    || c == '\U{202F}' || c == '\U{205F}' || c == '\U{3000}'
  }

  /** `string.IsNullOrWhiteSpace` on a non-null string (the empty string is blank). */
  predicate IsBlank(s: string) {
    forall i :: 0 <= i < |s| ==> IsWhiteSpace(s[i])
  }

  /** `string.TrimStart()`: drops the leading white space (see `TrimStartParts`). */
  function TrimStart(s: string): (r: string)
    ensures |r| <= |s|
    ensures r == [] || !IsWhiteSpace(r[0])
  {
    if s != [] && IsWhiteSpace(s[0]) then TrimStart(s[1..]) else s
  }

  /** `TrimStart` keeps a suffix and drops only white space before it. */
  lemma {:induction false} TrimStartParts(s: string)
    ensures TrimStart(s) == s[|s| - |TrimStart(s)|..]
    ensures IsBlank(s[..|s| - |TrimStart(s)|])
    decreases |s|
  {
    if s != [] && IsWhiteSpace(s[0]) {
      TrimStartParts(s[1..]);
      var r := TrimStart(s);
      assert s[1..][|s| - 1 - |r|..] == s[|s| - |r|..];
      assert forall i :: 1 <= i < |s| - |r| ==> s[i] == s[1..][..|s| - 1 - |r|][i - 1];
    }
  }

  /** `string.TrimEnd()`: drops the trailing white space (see `TrimEndParts`). */
  function TrimEnd(s: string): (r: string)
    ensures |r| <= |s|
    ensures r == [] || !IsWhiteSpace(r[|r| - 1])
  {
    if s != [] && IsWhiteSpace(s[|s| - 1]) then TrimEnd(s[..|s| - 1]) else s
  }

  /** `TrimEnd` keeps a prefix and drops only white space after it. */
  lemma {:induction false} TrimEndParts(s: string)
    ensures TrimEnd(s) == s[..|TrimEnd(s)|]
    ensures IsBlank(s[|TrimEnd(s)|..])
    decreases |s|
  {
    if s != [] && IsWhiteSpace(s[|s| - 1]) {
      var p := s[..|s| - 1];
      TrimEndParts(p);
      var r := TrimEnd(s);
      assert p[..|r|] == s[..|r|];
      assert forall i :: |r| <= i < |s| - 1 ==> s[i] == p[|r|..][i - |r|];
    }
  }

  /** `string.Trim()`: the part of `s` between its leading and trailing white space. */
  function Trim(s: string): (r: string)
    ensures |r| <= |s|
    ensures r == [] || (!IsWhiteSpace(r[0]) && !IsWhiteSpace(r[|r| - 1]))
    ensures r == [] <==> IsBlank(s)
  {
    var t := TrimStart(s);
    var r := TrimEnd(t);
    TrimStartParts(s);
    TrimEndParts(t);
    assert r == [] ==> IsBlank(s) by {
      if r == [] {
        assert t[|r|..] == t;
        assert |t| == 0;
        assert s[..|s| - |t|] == s;
      }
    }
    assert IsBlank(s) ==> t == [] by {
      if t != [] {
        assert t[0] == s[|s| - |t|];
      }
    }
    r
  }

  /** A text without white space at either end is its own trim. */
  lemma TrimUnchanged(s: string)
    requires s != [] && !IsWhiteSpace(s[0]) && !IsWhiteSpace(s[|s| - 1])
    ensures Trim(s) == s
  {
  }

  /** `string.Join(sep, parts)`. */
  function Join(parts: seq<string>, sep: string): (r: string)
    ensures |parts| == 1 ==> r == parts[0]
  {
    if |parts| == 0 then ""
    else if |parts| == 1 then parts[0]
    else parts[0] + sep + Join(parts[1..], sep)
  }

  /** No character of `s` is `c`. */
  predicate Omits(s: string, c: char) {
    forall k :: 0 <= k < |s| ==> s[k] != c
  }

  /** `s.Split(c)`: the pieces between the occurrences of `c`; never an empty list, and no
      piece holds `c`. */
  function Split(s: string, c: char): (r: seq<string>)
    ensures |r| >= 1
    ensures forall k :: 0 <= k < |r| ==> Omits(r[k], c)
    decreases |s|
  {
    if s == [] then [""]
    else
      var rest := Split(s[1..], c);
      if s[0] == c then [""] + rest else [[s[0]] + rest[0]] + rest[1..]
  }

  /** Joining the pieces of `Split` with the separator gives back the string. */
  lemma {:induction false} JoinSplit(s: string, c: char)
    ensures Join(Split(s, c), [c]) == s
    decreases |s|
  {
    if s != [] {
      var rest := Split(s[1..], c);
      JoinSplit(s[1..], c);
      if s[0] == c {
        assert Split(s, c) == [""] + rest;
        assert ([""] + rest)[1..] == rest;
      } else {
        var r := [[s[0]] + rest[0]] + rest[1..];
        assert Split(s, c) == r;
        if |rest| == 1 {
          assert s == [s[0]] + s[1..];
        } else {
          assert r[1..] == rest[1..];
          assert Join(rest, [c]) == rest[0] + [c] + Join(rest[1..], [c]);
          assert s == [s[0]] + s[1..];
        }
      }
    }
  }

  /** Splitting a separator-free list of pieces joined by the separator gives the pieces back. */
  lemma {:induction false} SplitJoin(parts: seq<string>, c: char)
    requires |parts| >= 1
    requires forall k :: 0 <= k < |parts| ==> Omits(parts[k], c)
    ensures Split(Join(parts, [c]), c) == parts
    decreases |parts|, |parts[0]|
  {
    if parts[0] != [] {
      var p := parts[0];
      var tail := [p[1..]] + parts[1..];
      assert tail[0] == p[1..];
      assert forall k :: 1 <= k < |tail| ==> tail[k] == parts[k];
      SplitJoin(tail, c);
      var j := Join(parts, [c]);
      assert j == [p[0]] + Join(tail, [c]) by {
        if |parts| == 1 {
          assert p == [p[0]] + p[1..];
        } else {
          assert tail[1..] == parts[1..];
          assert p == [p[0]] + p[1..];
        }
      }
      assert j[0] == p[0] && j[1..] == Join(tail, [c]);
      assert p == [p[0]] + p[1..];
      assert parts == [p] + parts[1..];
    } else if |parts| > 1 {
      SplitJoin(parts[1..], c);
      var j := Join(parts, [c]);
      assert j == [c] + Join(parts[1..], [c]);
      assert j[1..] == Join(parts[1..], [c]);
      assert parts == [""] + parts[1..];
    }
  }

  /** `p` is a prefix of `s`, compared character by character. This stands for
      `s.StartsWith(p)`, which .NET compares with the current culture rather than ordinally. */
  predicate IsPrefix(p: string, s: string) {
    |p| <= |s| && s[..|p|] == p
  }

  /** `s.Contains(sub)`, searched from the left. */
  predicate Contains(s: string, sub: string)
    decreases |s|
  {
    IsPrefix(sub, s) || (s != [] && Contains(s[1..], sub))
  }

  /** `sub` stands in `s` at position `k`. */
  predicate OccursAt(s: string, sub: string, k: int) {
    0 <= k <= |s| - |sub| && s[k..k + |sub|] == sub
  }

  /** `Contains` holds exactly when `sub` occurs at some position of `s`. */
  lemma {:induction false} ContainsAt(s: string, sub: string)
    ensures Contains(s, sub) <==> exists k :: OccursAt(s, sub, k)
    decreases |s|
  {
    if IsPrefix(sub, s) {
      assert OccursAt(s, sub, 0);
    }
    if s != [] {
      ContainsAt(s[1..], sub);
      if Contains(s[1..], sub) {
        var k :| OccursAt(s[1..], sub, k);
        assert s[k + 1..k + 1 + |sub|] == s[1..][k..k + |sub|];
        assert OccursAt(s, sub, k + 1);
      }
      if exists k :: OccursAt(s, sub, k) {
        var k :| OccursAt(s, sub, k);
        if k > 0 {
          assert s[1..][k - 1..k - 1 + |sub|] == s[k..k + |sub|];
          assert OccursAt(s[1..], sub, k - 1);
        } else {
          assert s[..|sub|] == sub;
        }
      }
    } else {
      if exists k :: OccursAt(s, sub, k) {
        var k :| OccursAt(s, sub, k);
        assert sub == [];
      }
    }
  }

  /** `s.Replace(pat, rep)` (ordinal): every non-overlapping occurrence of `pat`, found
      from the left, is replaced by `rep`. */
  function Replace(s: string, pat: string, rep: string): string
    requires pat != []
    decreases |s|
  {
    if |s| < |pat| then s
    else if s[..|pat|] == pat then rep + Replace(s[|pat|..], pat, rep)
    else [s[0]] + Replace(s[1..], pat, rep)
  }

  /** `s` has the two-character text `[a, b]` somewhere. */
  predicate HasPair(s: string, a: char, b: char)
    decreases |s|
  {
    |s| >= 2 && ((s[0] == a && s[1] == b) || HasPair(s[1..], a, b))
  }

  /** Replacing a text that does not occur leaves the string unchanged. */
  lemma {:induction false} ReplaceAbsent(s: string, a: char, b: char, rep: string)
    requires !HasPair(s, a, b)
    ensures Replace(s, [a, b], rep) == s
    decreases |s|
  {
    if |s| >= 2 {
      assert s[..2] != [a, b];
      ReplaceAbsent(s[1..], a, b, rep);
      assert s == [s[0]] + s[1..];
    }
  }

  /** The first character of `Replace(s, [a, b], rep)` when `s` is not empty. */
  lemma ReplaceHead(s: string, a: char, b: char, rep: string)
    requires s != [] && rep != []
    ensures Replace(s, [a, b], rep) != []
    ensures Replace(s, [a, b], rep)[0] == if |s| >= 2 && s[0] == a && s[1] == b then rep[0] else s[0]
  {
    if |s| >= 2 {
      assert s[..2] == [s[0], s[1]];
    }
  }

  lemma HasPairConcat(x: string, y: string, a: char, b: char)
    requires !HasPair(x, a, b) && !HasPair(y, a, b)
    requires x == [] || y == [] || x[|x| - 1] != a || y[0] != b
    ensures !HasPair(x + y, a, b)
    decreases |x|
  {
    if x != [] {
      assert (x + y)[1..] == x[1..] + y;
      if |x| >= 2 {
        assert (x + y)[0] == x[0] && (x + y)[1] == x[1];
      } else if y != [] {
        assert (x + y)[0] == x[0] && (x + y)[1] == y[0];
      }
      HasPairConcat(x[1..], y, a, b);
      assert !HasPair((x + y)[1..], a, b);
      if |x| >= 2 {
        assert !(x[0] == a && x[1] == b);
      } else if y != [] {
        assert !(x[0] == a && y[0] == b);
      }
    } else {
      assert x + y == y;
    }
  }

  /** Replacing a two-character text in a concatenation replaces it in each part, unless an
      occurrence straddles the two: `u` ending in its first character and `v` starting with
      its second. */
  lemma {:induction false} ReplaceConcat(u: string, v: string, a: char, b: char, rep: string)
    requires u == [] || v == [] || u[|u| - 1] != a || v[0] != b
    ensures Replace(u + v, [a, b], rep) == Replace(u, [a, b], rep) + Replace(v, [a, b], rep)
    decreases |u|
  {
    var pat := [a, b];
    var s := u + v;
    if u == [] {
      assert s == v;
    } else if |u| == 1 {
      if v == [] {
        assert s == u;
      } else {
        assert s[..2] != pat by { assert s[0] == u[0] && s[1] == v[0]; }
        assert s[1..] == v;
        assert Replace(s, pat, rep) == [u[0]] + Replace(v, pat, rep);
      }
    } else if u[..2] == pat {
      assert s[..2] == u[..2];
      assert s[2..] == u[2..] + v;
      var t := u[2..];
      assert t == [] || t[|t| - 1] == u[|u| - 1];
      ReplaceConcat(t, v, a, b, rep);
      calc {
        Replace(s, pat, rep);
        rep + Replace(t + v, pat, rep);
        rep + (Replace(t, pat, rep) + Replace(v, pat, rep));
        (rep + Replace(t, pat, rep)) + Replace(v, pat, rep);
        Replace(u, pat, rep) + Replace(v, pat, rep);
      }
    } else {
      assert s[..2] == u[..2];
      assert s[1..] == u[1..] + v;
      var t := u[1..];
      assert t[|t| - 1] == u[|u| - 1];
      ReplaceConcat(t, v, a, b, rep);
      calc {
        Replace(s, pat, rep);
        [u[0]] + Replace(t + v, pat, rep);
        [u[0]] + (Replace(t, pat, rep) + Replace(v, pat, rep));
        ([u[0]] + Replace(t, pat, rep)) + Replace(v, pat, rep);
        Replace(u, pat, rep) + Replace(v, pat, rep);
      }
    }
  }

  /** A middle piece that starts with something other than the second character of `[a, b]`
      and ends with something other than its first is replaced on its own: no occurrence
      straddles either of its ends. */
  lemma ReplaceAround(x: string, m: string, y: string, a: char, b: char, rep: string)
    requires m != [] && m[0] != b && m[|m| - 1] != a
    ensures Replace(x + m + y, [a, b], rep)
            == Replace(x, [a, b], rep) + Replace(m, [a, b], rep) + Replace(y, [a, b], rep)
  {
    assert x + m + y == x + (m + y);
    assert (m + y)[0] == m[0];
    ReplaceConcat(x, m + y, a, b, rep);
    ReplaceConcat(m, y, a, b, rep);
  }

  /** After `Replace(s, pat, rep)`, a two-character text `[a, b]` whose first character does
      not occur in `rep`, and which `rep` cannot complete, occurs only if it occurred before
      or is `pat` itself; `pat` never survives. */
  lemma {:induction false} ReplaceKeepsAbsent(s: string, p0: char, p1: char, rep: string, a: char, b: char)
    requires rep != [] && a !in rep && rep[0] != b
    requires !HasPair(s, a, b) || (a == p0 && b == p1)
    ensures !HasPair(Replace(s, [p0, p1], rep), a, b)
    decreases |s|
  {
    var pat := [p0, p1];
    if |s| < 2 {
    } else if s[..2] == pat {
      assert !HasPair(s[2..], a, b) || (a == p0 && b == p1) by {
        if HasPair(s[2..], a, b) { assert HasPair(s[1..], a, b); }
      }
      ReplaceKeepsAbsent(s[2..], p0, p1, rep, a, b);
      assert !HasPair(rep, a, b) by { NoHeadNoPair(rep, a, b); }
      HasPairConcat(rep, Replace(s[2..], pat, rep), a, b);
    } else {
      assert !HasPair(s[1..], a, b) || (a == p0 && b == p1);
      ReplaceKeepsAbsent(s[1..], p0, p1, rep, a, b);
      var tail := Replace(s[1..], pat, rep);
      ReplaceHead(s[1..], p0, p1, rep);
      assert (s[0] == a && s[1] == b) ==> HasPair(s, a, b);
      assert s[..2] == [s[0], s[1]];
      HasPairConcat([s[0]], tail, a, b);
    }
  }

  lemma NoHeadNoPair(s: string, a: char, b: char)
    requires a !in s
    ensures !HasPair(s, a, b)
    decreases |s|
  {
    if |s| >= 2 {
      assert s[0] in s;
      assert forall x :: x in s[1..] ==> x in s;
      NoHeadNoPair(s[1..], a, b);
    }
  }

  // ---------------------------------------------------------------------------
  // Lists of pieces built by a scanner that flushes its pending text

  /** A text that occurs in `s` has at most the length of `s`. */
  lemma {:induction false} ContainsLength(s: string, sub: string)
    ensures Contains(s, sub) ==> |sub| <= |s|
    decreases |s|
  {
    if s != [] {
      ContainsLength(s[1..], sub);
    }
  }

  /** A text that occurs in a suffix of `s` occurs in `s`. */
  lemma {:induction false} ContainsSuffix(s: string, k: nat, sub: string)
    requires k <= |s|
    ensures Contains(s[k..], sub) ==> Contains(s, sub)
    decreases k
  {
    if k > 0 {
      ContainsSuffix(s[1..], k - 1, sub);
      assert s[1..][k - 1..] == s[k..];
    }
  }

  /** A text whose first character is not in `x` occurs in `x + y` only if it occurs in `y`. */
  lemma {:induction false} ContainsAfter(x: string, y: string, sub: string)
    requires sub != [] && sub[0] !in x
    ensures Contains(x + y, sub) ==> Contains(y, sub)
    decreases |x|
  {
    if x != [] {
      assert (x + y)[0] == x[0] && (x + y)[1..] == x[1..] + y;
      assert sub[0] !in x[1..];
      ContainsAfter(x[1..], y, sub);
    } else {
      assert x + y == y;
    }
  }

  /** A start of `Replace(t, pat, rep)` that lacks the first character of `rep` is a start
      of `t` itself. */
  lemma {:induction false} ReplaceLeading(t: string, pat: string, rep: string, q: string)
    requires pat != [] && rep != [] && rep[0] !in q
    ensures q <= Replace(t, pat, rep) ==> q <= t
    decreases |t|
  {
    if q != [] && |t| >= |pat| {
      if t[..|pat|] == pat {
        assert Replace(t, pat, rep)[0] == rep[0];
      } else {
        ReplaceLeading(t[1..], pat, rep, q[1..]);
        assert Replace(t, pat, rep) == [t[0]] + Replace(t[1..], pat, rep);
      }
    }
  }

  /** `Replace` creates no occurrence of a text `q` when `q` starts with a character that `rep`
      lacks and `rep` starts with a character that `q` lacks; in particular `pat` itself
      does not survive. */
  lemma {:induction false} ReplaceNoNew(s: string, pat: string, rep: string, q: string)
    requires pat != [] && rep != [] && q != [] && q[0] !in rep && rep[0] !in q
    ensures (q == pat || !Contains(s, q)) ==> !Contains(Replace(s, pat, rep), q)
    decreases |s|
  {
    if |s| < |pat| {
      ContainsLength(s, q);
    } else if s[..|pat|] == pat {
      var rest := s[|pat|..];
      ReplaceNoNew(rest, pat, rep, q);
      ContainsSuffix(s, |pat|, q);
      ContainsAfter(rep, Replace(rest, pat, rep), q);
    } else {
      var r1 := Replace(s[1..], pat, rep);
      ReplaceNoNew(s[1..], pat, rep, q);
      ContainsSuffix(s, 1, q);
      assert Replace(s, pat, rep) == [s[0]] + r1;
      assert ([s[0]] + r1)[1..] == r1;
      ReplaceLeading(s[1..], pat, rep, q[1..]);
      if q <= [s[0]] + r1 {
        assert q[1..] <= r1;
        assert q[1..] <= s[1..];
        assert q <= s;
      }
    }
  }

  /** The token list after the pending text is emitted (only when it is not empty). */
  function Flush(tokens: seq<string>, current: string): seq<string> {
    if |current| > 0 then tokens + [current] else tokens
  }

  /** Every token in `ts` has at least one character. */
  predicate AllNonEmpty(ts: seq<string>) {
    forall k :: 0 <= k < |ts| ==> ts[k] != ""
  }

  /** The tokens of `ts` written one after another. */
  function Concat(ts: seq<string>): string {
    if ts == [] then "" else Concat(ts[..|ts| - 1]) + ts[|ts| - 1]
  }

  lemma Associate(a: string, b: string, c: string)
    ensures a + b + c == a + (b + c)
  {
  }

  lemma ConcatSnoc(ts: seq<string>, t: string)
    ensures Concat(ts + [t]) == Concat(ts) + t
  {
    assert (ts + [t])[..|ts|] == ts;
  }

  lemma ConcatFlush(ts: seq<string>, current: string)
    ensures Concat(Flush(ts, current)) == Concat(ts) + current
  {
    if |current| > 0 { ConcatSnoc(ts, current); }
  }
}

/**
 * The handful of Python string operations the file tools lean on:
 * `startswith`, substring `in`, `lower`, `replace`, `strip`, `split` and
 * `join`, written over `string` (a sequence of Unicode code points, as a
 * Python `str` is).
 */
module Strings {

  /** `s.startswith(prefix)` */
  predicate StartsWith(s: string, prefix: string) {
    |prefix| <= |s| && s[..|prefix|] == prefix
  }

  /** The window of `hay` starting at `i` spells `needle`. */
  predicate OccursAt(hay: string, needle: string, i: int) {
    0 <= i && i + |needle| <= |hay| && hay[i..i + |needle|] == needle
  }

  /** `needle in hay` for two strings. */
  predicate Contains(hay: string, needle: string) {
    exists i | 0 <= i <= |hay| :: OccursAt(hay, needle, i)
  }

  /** A string that is longer than `hay` is never inside it. */
  lemma LongerNotContained(hay: string, needle: string)
    requires |needle| > |hay|
    ensures !Contains(hay, needle)
  {
  }

  // ---------------------------------------------------------------------
  // Case folding and separator removal

  /** `str.lower()` on one character; only A-Z are folded (see README). */
  function LowerChar(c: char): char {
    if 'A' <= c <= 'Z' then (c as int + 32) as char else c
  }

  function Lower(s: string): (r: string)
    ensures |r| == |s|
    ensures forall i :: 0 <= i < |s| ==> r[i] == LowerChar(s[i])
  {
    if s == [] then [] else [LowerChar(s[0])] + Lower(s[1..])
  }

  /** The separators the fuzzy search ignores: `_`, `-` and space. */
  predicate IsSeparator(c: char) {
    c == '_' || c == '-' || c == ' '
  }

  /** `s.replace('_', '').replace('-', '').replace(' ', '')` */
  function DropSeparators(s: string): (r: string)
    ensures |r| <= |s|
    ensures forall i :: 0 <= i < |r| ==> !IsSeparator(r[i])
  {
    if s == [] then []
    else if IsSeparator(s[0]) then DropSeparators(s[1..])
    else [s[0]] + DropSeparators(s[1..])
  }

  lemma LowerIdempotent(s: string)
    ensures Lower(Lower(s)) == Lower(s)
  {
    forall i | 0 <= i < |s| ensures Lower(Lower(s))[i] == Lower(s)[i] {
      assert LowerChar(LowerChar(s[i])) == LowerChar(s[i]);
    }
  }

  lemma LowerAppend(a: string, b: string)
    ensures Lower(a + b) == Lower(a) + Lower(b)
  {
    assert forall i :: 0 <= i < |a + b| ==> Lower(a + b)[i] == (Lower(a) + Lower(b))[i];
  }

  lemma {:induction false} DropSeparatorsAppend(a: string, b: string)
    ensures DropSeparators(a + b) == DropSeparators(a) + DropSeparators(b)
  {
    if a == [] {
      assert a + b == b;
    } else {
      assert (a + b)[0] == a[0];
      assert (a + b)[1..] == a[1..] + b;
      DropSeparatorsAppend(a[1..], b);
    }
  }

  // ---------------------------------------------------------------------
  // Whitespace stripping

  /** The code points for which Python's `str.isspace()` holds. */
  predicate IsSpace(c: char) {
    ('\t' <= c <= '\r') || ('\U{001C}' <= c <= ' ') || c == '\U{0085}' || c == '\U{00A0}'
    || c == '\U{1680}' || ('\U{2000}' <= c <= '\U{200A}') || c == '\U{2028}' || c == '\U{2029}'
    || c == '\U{202F}' || c == '\U{205F}' || c == '\U{3000}'
  }

  predicate AllSpace(s: string) {
    forall i :: 0 <= i < |s| ==> IsSpace(s[i])
  }

  function StripLeft(s: string): (r: string)
    ensures |r| <= |s|
    ensures r == [] || !IsSpace(r[0])
  {
    if s != [] && IsSpace(s[0]) then StripLeft(s[1..]) else s
  }

  function StripRight(s: string): (r: string)
    ensures |r| <= |s|
    ensures r == [] || !IsSpace(r[|r| - 1])
  {
    if s != [] && IsSpace(s[|s| - 1]) then StripRight(s[..|s| - 1]) else s
  }

  /** `s.strip()` */
  function Strip(s: string): string {
    StripRight(StripLeft(s))
  }

  lemma {:induction false} StripLeftSkipsSpace(w: string, x: string)
    requires AllSpace(w)
    ensures StripLeft(w + x) == StripLeft(x)
  {
    if w == [] {
      assert w + x == x;
    } else {
      assert (w + x)[0] == w[0];
      assert (w + x)[1..] == w[1..] + x;
      StripLeftSkipsSpace(w[1..], x);
    }
  }

  lemma {:induction false} StripRightSkipsSpace(x: string, w: string)
    requires AllSpace(w)
    ensures StripRight(x + w) == StripRight(x)
  {
    if w == [] {
      assert x + w == x;
    } else {
      var n := |w| - 1;
      assert (x + w)[|x + w| - 1] == w[n];
      assert (x + w)[..|x + w| - 1] == x + w[..n];
      StripRightSkipsSpace(x, w[..n]);
    }
  }

  /** A string that is its own strip has no space at either end. */
  lemma StrippedEnds(s: string)
    requires Strip(s) == s && s != []
    ensures !IsSpace(s[0]) && !IsSpace(s[|s| - 1])
  {
  }

  /**
   * Padding a stripped string with whitespace on both sides and stripping
   * again gives the string back.
   */
  lemma StripPadded(w1: string, s: string, w2: string)
    requires AllSpace(w1) && AllSpace(w2)
    requires Strip(s) == s
    ensures Strip(w1 + s + w2) == s
  {
    assert w1 + s + w2 == w1 + (s + w2);
    StripLeftSkipsSpace(w1, s + w2);
    if s == [] {
      assert s + w2 == w2 + [];
      StripLeftSkipsSpace(w2, []);
    } else {
      StrippedEnds(s);
      assert (s + w2)[0] == s[0];
      var left := StripLeft(s + w2);
      assert left == s + w2;
      StripRightSkipsSpace(s, w2);
      assert StripRight(s) == s;
    }
  }

  // ---------------------------------------------------------------------
  // Joining and splitting

  /** A string that starts with `p` is `p` followed by the rest. */
  lemma PrefixRest(s: string, p: string)
    requires StartsWith(s, p)
    ensures s == p + s[|p|..]
  {
    assert s == s[..|p|] + s[|p|..];
  }

  /** A string that starts with `p + [c]` holds `c` right after `p`. */
  lemma PrefixNext(s: string, p: string, c: char)
    requires StartsWith(s, p + [c])
    ensures |p| < |s| && s[|p|] == c
  {
    assert s[|p|] == s[..|p| + 1][|p|];
  }

  /** `p + q` starts with `p`, and its next character is the first of `q`. */
  lemma PrefixOfAppend(p: string, q: string)
    ensures StartsWith(p + q, p)
    ensures q != [] ==> (p + q)[|p|] == q[0]
  {
    assert (p + q)[..|p|] == p;
  }

  /** Regrouping a concatenation of five strings to the right of the first. */
  lemma Regroup(a: string, b: string, c: string, d: string, e: string)
    ensures a + b + c + d + e == a + (b + c + d + e)
  {
  }

  /** Regrouping a concatenation of four strings to the right of the first. */
  lemma Regroup4(a: string, b: string, c: string, d: string)
    ensures a + b + c + d == a + (b + c + d)
  {
  }

  /** `sep.join(parts)` */
  function JoinWith(parts: seq<string>, sep: string): string {
    if parts == [] then ""
    else if |parts| == 1 then parts[0]
    else parts[0] + sep + JoinWith(parts[1..], sep)
  }

  /** `s.split(c)` for a single-character separator. */
  function SplitOn(s: string, c: char): (r: seq<string>)
    ensures |r| >= 1
    ensures forall i :: 0 <= i < |r| ==> c !in r[i]
  {
    if s == [] then [""]
    else if s[0] == c then [""] + SplitOn(s[1..], c)
    else
      var t := SplitOn(s[1..], c);
      [[s[0]] + t[0]] + t[1..]
  }

  /** Joining on `c` is undone by splitting on `c`. */
  lemma {:induction false} SplitOnJoin(parts: seq<string>, c: char)
    requires |parts| >= 1
    requires forall i :: 0 <= i < |parts| ==> c !in parts[i]
    ensures SplitOn(JoinWith(parts, [c]), c) == parts
  {
    if |parts| == 1 {
      SplitOnPlain(parts[0], [], c);
      assert parts[0] + [] == parts[0];
    } else {
      SplitOnJoin(parts[1..], c);
      var rest := JoinWith(parts[1..], [c]);
      assert parts[0] + [c] + rest == parts[0] + ([c] + rest);
      SplitOnPlain(parts[0], [c] + rest, c);
      assert ([c] + rest)[0] == c && ([c] + rest)[1..] == rest;
      assert SplitOn([c] + rest, c) == [""] + parts[1..];
      assert parts[0] + "" == parts[0];
      assert parts == [parts[0]] + parts[1..];
    }
  }

  /** A separator-free prefix is glued onto the first piece of what follows. */
  lemma {:induction false} SplitOnPlain(x: string, y: string, c: char)
    requires c !in x
    ensures SplitOn(x + y, c) == [x + SplitOn(y, c)[0]] + SplitOn(y, c)[1..]
  {
    var u := SplitOn(y, c);
    if x == [] {
      assert x + y == y;
      assert [] + u[0] == u[0];
      assert u == [u[0]] + u[1..];
    } else {
      assert (x + y)[0] == x[0] && x[0] != c;
      assert (x + y)[1..] == x[1..] + y;
      SplitOnPlain(x[1..], y, c);
      assert [x[0]] + (x[1..] + SplitOn(y, c)[0]) == x + SplitOn(y, c)[0];
    }
  }
}

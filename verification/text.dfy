/** The parts of JavaScript string handling that the registry relies on:
    `String.prototype.trim`, and the `\s`, `.` and `\b` of its regular
    expressions (written without the `u` flag). */
module JsText {

  /** White space as `\s` and `trim` see it: the WhiteSpace and
      LineTerminator code points of ECMAScript. */
  predicate IsSpace(c: char) {
    || c == ' ' || c == '\t' || c == '\n' || c == '\U{B}' || c == '\U{C}' || c == '\r'
    || c == '\U{A0}' || c == '\U{1680}' || ('\U{2000}' <= c <= '\U{200A}')
    || c == '\U{2028}' || c == '\U{2029}' || c == '\U{202F}' || c == '\U{205F}'
    || c == '\U{3000}' || c == '\U{FEFF}'
  }

  /** The characters a regular-expression `.` does not match. */
  predicate IsLineTerminator(c: char) {
    c == '\n' || c == '\r' || c == '\U{2028}' || c == '\U{2029}'
  }

  /** `\w`: the characters that sit inside a `\b` word boundary. */
  predicate IsWordChar(c: char) {
    ('a' <= c <= 'z') || ('A' <= c <= 'Z') || ('0' <= c <= '9') || c == '_'
  }

  predicate AllSpace(s: string) {
    forall i :: 0 <= i < |s| ==> IsSpace(s[i])
  }

  predicate NoLineTerminator(s: string) {
    forall i :: 0 <= i < |s| ==> !IsLineTerminator(s[i])
  }

  /** True when `s` has no white space at either end. */
  predicate IsTrimmed(s: string) {
    s == [] || (!IsSpace(s[0]) && !IsSpace(s[|s| - 1]))
  }

  /** The length of the white-space run that starts `s`. */
  function LeadingSpace(s: string): (n: nat)
    ensures n <= |s|
    ensures AllSpace(s[..n])
    ensures n < |s| ==> !IsSpace(s[n])
  {
    if |s| > 0 && IsSpace(s[0]) then
      var m := LeadingSpace(s[1..]);
      assert forall k :: 1 <= k < 1 + m ==> s[k] == s[1..][..m][k - 1];
      1 + m
    else
      0
  }

  /** The length of the white-space run that ends `s`. */
  function TrailingSpace(s: string): (n: nat)
    ensures n <= |s|
    ensures AllSpace(s[|s| - n..])
    ensures n < |s| ==> !IsSpace(s[|s| - n - 1])
  {
    if |s| > 0 && IsSpace(s[|s| - 1]) then
      var front := s[..|s| - 1];
      var m := TrailingSpace(front);
      assert s[|s| - 1 - m..] == front[|front| - m..] + [s[|s| - 1]];
      AllSpaceConcat(front[|front| - m..], [s[|s| - 1]]);
      1 + m
    else
      0
  }

  /** `String.prototype.trim`: `s` without its leading and trailing white space. */
  function Trim(s: string): (r: string)
    ensures IsTrimmed(r)
    ensures |r| <= |s|
  {
    var rest := s[LeadingSpace(s)..];
    rest[..|rest| - TrailingSpace(rest)]
  }

  /** `LeadingSpace` is the only length with its two properties. */
  lemma {:induction false} LeadingSpaceIs(s: string, m: nat)
    requires m <= |s| && AllSpace(s[..m])
    requires m < |s| ==> !IsSpace(s[m])
    ensures LeadingSpace(s) == m
    decreases m
  {
    if m > 0 {
      assert IsSpace(s[0]) by { assert s[..m][0] == s[0]; }
      var front := s[1..][..m - 1];
      assert AllSpace(front) by {
        forall i | 0 <= i < |front| ensures IsSpace(front[i]) {
          assert front[i] == s[..m][i + 1];
        }
      }
      assert m - 1 < |s[1..]| ==> s[1..][m - 1] == s[m];
      LeadingSpaceIs(s[1..], m - 1);
    }
  }

  /** `TrailingSpace` is the only length with its two properties. */
  lemma TrailingSpaceIs(s: string, m: nat)
    requires m <= |s| && AllSpace(s[|s| - m..])
    requires m < |s| ==> !IsSpace(s[|s| - m - 1])
    ensures TrailingSpace(s) == m
  {
  }

  /** Trimming a trimmed text surrounded by white space gives that text back. */
  lemma TrimOfPadded(pre: string, t: string, post: string)
    requires AllSpace(pre) && AllSpace(post) && IsTrimmed(t)
    ensures Trim(pre + t + post) == t
  {
    var s := pre + t + post;
    if t == [] {
      assert s == pre + post;
      assert s[..|s|] == s;
      LeadingSpaceIs(s, |s|);
    } else {
      assert s[..|pre|] == pre;
      assert s[|pre|] == t[0];
      LeadingSpaceIs(s, |pre|);
      var rest := s[|pre|..];
      assert rest == t + post;
      assert rest[|rest| - |post|..] == post;
      assert rest[|rest| - |post| - 1] == t[|t| - 1];
      TrailingSpaceIs(rest, |post|);
      assert rest[..|rest| - |post|] == t;
    }
  }

  /** A text is its first `a` characters, then the rest without its last
      `b` characters, then those. */
  lemma Split3(s: string, a: nat, b: nat)
    requires a <= |s| && b <= |s[a..]|
    ensures s == s[..a] + s[a..][..|s[a..]| - b] + s[a..][|s[a..]| - b..]
  {
    var rest := s[a..];
    assert rest == rest[..|rest| - b] + rest[|rest| - b..];
    assert s == s[..a] + rest;
  }

  /** Every text is its trimmed form between two runs of white space. */
  lemma TrimSplit(s: string) returns (pre: string, post: string)
    ensures AllSpace(pre) && AllSpace(post)
    ensures s == pre + Trim(s) + post
  {
    var a := LeadingSpace(s);
    var rest := s[a..];
    var b := TrailingSpace(rest);
    pre, post := s[..a], rest[|rest| - b..];
    var t := rest[..|rest| - b];
    assert Trim(s) == t;
    Split3(s, a, b);
    assert s == pre + t + post;
  }

  /** A trimmed text is its own trim. */
  lemma TrimOfTrimmed(t: string)
    requires IsTrimmed(t)
    ensures Trim(t) == t
  {
    assert "" + t + "" == t;
    TrimOfPadded("", t, "");
  }

  /** `trim` is idempotent. */
  lemma TrimIdempotent(s: string)
    ensures Trim(Trim(s)) == Trim(s)
  {
    TrimOfTrimmed(Trim(s));
  }

  /** Two runs of white space make one. */
  lemma AllSpaceConcat(a: string, b: string)
    requires AllSpace(a) && AllSpace(b)
    ensures AllSpace(a + b)
  {
    forall i | 0 <= i < |a + b| ensures IsSpace((a + b)[i]) {
      if i < |a| { assert (a + b)[i] == a[i]; } else { assert (a + b)[i] == b[i - |a|]; }
    }
  }

  /** Concatenation regrouped around a middle part. */
  lemma Regroup(p: string, a: string, t: string, b: string, q: string)
    ensures p + (a + t + b) + q == (p + a) + t + (b + q)
  {
  }

  /** White space added around a text does not change its trim. */
  lemma TrimIgnoresPadding(pre: string, s: string, post: string)
    requires AllSpace(pre) && AllSpace(post)
    ensures Trim(pre + s + post) == Trim(s)
  {
    var a, b := TrimSplit(s);
    var t := Trim(s);
    Regroup(pre, a, t, b, post);
    AllSpaceConcat(pre, a);
    AllSpaceConcat(b, post);
    TrimOfPadded(pre + a, t, b + post);
  }
}

/** Option and Result, for the absent tag value and the aborted run. */
module Wrappers {
  datatype Option<+T> = None | Some(value: T)

  datatype Result<+T, +E> = Ok(value: T) | Err(error: E)
}

/** Character classes and the few string operations of Python's str that tp2tj uses. */
module Text {

  /** Python's str.isspace(): the characters `\s` matches in a str pattern,
      and the ones strip() and rstrip() remove. */
  predicate IsSpace(c: char) {
    || c == ' '
    || '\t' <= c <= '\r'
    || '\U{1C}' <= c <= '\U{1F}'
    || c == '\U{85}' || c == '\U{A0}' || c == '\U{1680}'
    || '\U{2000}' <= c <= '\U{200A}'
    || c == '\U{2028}' || c == '\U{2029}' || c == '\U{202F}' || c == '\U{205F}' || c == '\U{3000}'
  }

  /** A string holding whitespace only (`line.strip()` is empty). */
  predicate Blank(s: string) {
    forall k :: 0 <= k < |s| ==> IsSpace(s[k])
  }

  /** str.rstrip(): the longest prefix that does not end in whitespace. */
  function RStrip(s: string): (r: string)
    ensures |r| <= |s| && r == s[..|r|]
    ensures forall k :: |r| <= k < |s| ==> IsSpace(s[k])
    ensures r == [] || !IsSpace(r[|r| - 1])
  {
    if s == [] || !IsSpace(s[|s| - 1]) then s else RStrip(s[..|s| - 1])
  }

  /** str.lstrip(): the longest suffix that does not start with whitespace. */
  function LStrip(s: string): (r: string)
    ensures |r| <= |s| && r == s[|s| - |r|..]
    ensures forall k :: 0 <= k < |s| - |r| ==> IsSpace(s[k])
    ensures r == [] || !IsSpace(r[0])
  {
    if s == [] || !IsSpace(s[0]) then s else LStrip(s[1..])
  }

  /** str.strip(): s less its leading whitespace (what lstrip removes) and
      its trailing whitespace. */
  function Strip(s: string): (r: string)
    ensures |r| <= |s|
    ensures r == [] <==> Blank(s)
    ensures r == [] || (!IsSpace(r[0]) && !IsSpace(r[|r| - 1]))
    ensures var a := |s| - |LStrip(s)|;
      && a + |r| <= |s| && Blank(s[..a]) && r == s[a..][..|r|] && Blank(s[a..][|r|..])
  {
    StripEnds(s);
    RStrip(LStrip(s))
  }

  /** strip() cuts whitespace from both ends, and is empty only for blank text. */
  lemma StripEnds(s: string)
    ensures var l := LStrip(s); var u := RStrip(l); var a := |s| - |l|;
      && (u == [] <==> Blank(s))
      && (u == [] || !IsSpace(u[0]))
      && a + |u| <= |s| && Blank(s[..a]) && u == s[a..][..|u|] && Blank(s[a..][|u|..])
  {
    var l := LStrip(s);
    var u := RStrip(l);
    var a := |s| - |l|;
    assert s[a..] == l;
    assert Blank(s[..a]) by {
      forall k | 0 <= k < a ensures IsSpace(s[..a][k]) {
        assert s[..a][k] == s[k];
      }
    }
    assert Blank(l[|u|..]) by {
      forall k | 0 <= k < |l| - |u| ensures IsSpace(l[|u|..][k]) {
        assert l[|u|..][k] == l[|u| + k];
      }
    }
    BlankStrip(s, l, u);
    assert u != [] ==> u[0] == l[0];
  }

  lemma BlankStrip(s: string, l: string, u: string)
    requires l == LStrip(s) && u == RStrip(l)
    ensures u == [] <==> Blank(s)
  {
    if u == [] {
      assert l == [];
      forall k | 0 <= k < |s| ensures IsSpace(s[k]) { }
    }
    if Blank(s) {
      assert l == [];
    }
  }

  /** `c * n` in Python. */
  function Repeat(c: char, n: nat): (r: string)
    ensures |r| == n && forall k :: 0 <= k < n ==> r[k] == c
  {
    seq(n, _ => c)
  }

  function Spaces(n: nat): string { Repeat(' ', n) }

  /** The number of leading copies of c in s: what a greedy `c*` consumes. */
  function CountLeading(s: string, c: char): (n: nat)
    ensures n <= |s|
    ensures forall k :: 0 <= k < n ==> s[k] == c
    ensures n == |s| || s[n] != c
  {
    if s == [] || s[0] != c then 0 else 1 + CountLeading(s[1..], c)
  }

  /** s[p..] starts with w. */
  predicate OccursAt(s: string, w: string, p: nat) {
    p + |w| <= |s| && s[p..p + |w|] == w
  }

  /** w is a substring of s. */
  ghost predicate Occurs(s: string, w: string) {
    exists p: nat :: OccursAt(s, w, p)
  }
}

/** str.splitlines(keepends=True) and textwrap.indent from Python's library:
    output_task (tp2tj.py line 70) indents a task's block with the latter,
    which cuts the text into lines with the former. */
module TextWrap {
  import opened Text

  /** The line boundaries of str.splitlines: \n, \r, \v, \f, \x1c, \x1d,
      \x1e, \x85, \u2028 and \u2029 (and \r\n, which counts as one). */
  predicate IsBreak(c: char) {
    || c == '\n' || c == '\r' || c == '\U{0B}' || c == '\U{0C}'
    || '\U{1C}' <= c <= '\U{1E}'
    || c == '\U{85}' || c == '\U{2028}' || c == '\U{2029}'
  }

  predicate NoBreaks(s: string) {
    forall k :: 0 <= k < |s| ==> !IsBreak(s[k])
  }

  /** The first line boundary at or after `from`, or |s| if there is none. */
  function NextBreak(s: string, from: nat): (k: nat)
    requires from <= |s|
    ensures from <= k <= |s|
    ensures forall x :: from <= x < k ==> !IsBreak(s[x])
    ensures k < |s| ==> IsBreak(s[k])
    decreases |s| - from
  {
    if from == |s| || IsBreak(s[from]) then from else NextBreak(s, from + 1)
  }

  /** Where the first line of a non-empty string ends, its boundary included. */
  function LineEnd(s: string): (e: nat)
    requires s != []
    ensures 0 < e <= |s|
  {
    var k := NextBreak(s, 0);
    if k == |s| then k
    else if s[k] == '\r' && k + 1 < |s| && s[k + 1] == '\n' then k + 2
    else k + 1
  }

  /** s.splitlines(True). */
  function SplitLines(s: string): (r: seq<string>)
    ensures r == [] <==> s == []
    decreases |s|
  {
    if s == [] then [] else [s[..LineEnd(s)]] + SplitLines(s[LineEnd(s)..])
  }

  /** ''.join(ls). */
  function Concat(ls: seq<string>): string {
    if ls == [] then [] else ls[0] + Concat(ls[1..])
  }

  /** One piece of splitlines: non-empty, and free of boundaries except for a
      final one (a final \r\n counting as one). */
  predicate IsLine(l: string) {
    && l != []
    && (|| NoBreaks(l[..|l| - 1])
        || (|l| >= 2 && l[|l| - 2..] == "\r\n" && NoBreaks(l[..|l| - 2])))
  }

  /** textwrap.indent(s, prefix): the lines of s, each one that is not
      whitespace only (`line.strip()` is empty) preceded by the prefix. */
  function Indent(s: string, prefix: string): string {
    Concat(Prefixed(SplitLines(s), prefix))
  }

  function Prefixed(ls: seq<string>, prefix: string): (r: seq<string>)
    ensures |r| == |ls|
  {
    if ls == [] then [] else [if Blank(ls[0]) then ls[0] else prefix + ls[0]] + Prefixed(ls[1..], prefix)
  }

  /** Each line followed by \n. */
  function Unlines(ls: seq<string>): string {
    if ls == [] then [] else ls[0] + "\n" + Unlines(ls[1..])
  }

  // ---------------------------------------------------------------------------
  // splitlines

  lemma ConcatCons(l: string, ls: seq<string>)
    ensures Concat([l] + ls) == l + Concat(ls)
  {
    assert ([l] + ls)[0] == l && ([l] + ls)[1..] == ls;
  }

  /** Joining the pieces gives the string back. */
  lemma {:induction false} SplitLinesJoin(s: string)
    ensures Concat(SplitLines(s)) == s
    decreases |s|
  {
    if s != [] {
      var e := LineEnd(s);
      SplitLinesJoin(s[e..]);
      ConcatCons(s[..e], SplitLines(s[e..]));
      assert s[..e] + s[e..] == s;
    }
  }

  /** The first piece is one line, and it ends with a boundary unless it is
      the whole string. */
  lemma FirstLine(s: string)
    requires s != []
    ensures IsLine(s[..LineEnd(s)])
    ensures LineEnd(s) < |s| ==> IsBreak(s[LineEnd(s) - 1])
    ensures LineEnd(s) < |s| && s[LineEnd(s) - 1] == '\r' ==> s[LineEnd(s)] != '\n'
  {
    var k := NextBreak(s, 0);
    var e := LineEnd(s);
    var l := s[..e];
    if e == k + 2 {
      assert l[|l| - 2..] == "\r\n";
      assert forall x :: 0 <= x < |l| - 2 ==> l[..|l| - 2][x] == s[x];
    } else {
      assert forall x :: 0 <= x < |l| - 1 ==> l[..|l| - 1][x] == s[x];
    }
  }

  /** Every piece is a line, every piece but the last ends with a boundary,
      and a \r\n is never split across two pieces. */
  lemma {:induction false} SplitLinesShape(s: string)
    ensures var r := SplitLines(s);
      && (forall k :: 0 <= k < |r| ==> IsLine(r[k]))
      && (forall k :: 0 <= k < |r| - 1 ==> IsBreak(r[k][|r[k]| - 1]))
      && (forall k :: 0 <= k < |r| - 1 ==> !(r[k][|r[k]| - 1] == '\r' && r[k + 1][0] == '\n'))
    decreases |s|
  {
    if s != [] {
      var e := LineEnd(s);
      FirstLine(s);
      SplitLinesShape(s[e..]);
      var r := SplitLines(s);
      assert r[1..] == SplitLines(s[e..]);
      forall k | 0 <= k < |r| ensures IsLine(r[k]) {
        if k > 0 {
          assert r[k] == r[1..][k - 1];
        }
      }
      forall k | 0 <= k < |r| - 1 ensures IsBreak(r[k][|r[k]| - 1]) {
        if k > 0 {
          assert r[k] == r[1..][k - 1];
        } else {
          assert s[e..] != [];
        }
      }
      forall k | 0 <= k < |r| - 1 ensures !(r[k][|r[k]| - 1] == '\r' && r[k + 1][0] == '\n') {
        if k > 0 {
          assert r[k] == r[1..][k - 1] && r[k + 1] == r[1..][k];
        } else {
          assert r[1][0] == s[e];
        }
      }
    }
  }

  /** \r\n is one boundary: "a\r\nb" splits into "a\r\n" and "b". */
  lemma CrLfOnePiece()
    ensures SplitLines("a\r\nb") == ["a\r\n", "b"]
  {
    var s := "a\r\nb";
    NextBreakAt(s, 0, 1);
    assert s[..3] == "a\r\n" && s[3..] == "b";
    SplitLinesOne("b");
  }

  /** A line without boundaries followed by \n is a piece of its own,
      whatever comes after it. */
  lemma SplitLinesCons(l: string, rest: string)
    requires NoBreaks(l)
    ensures SplitLines(l + "\n" + rest) == [l + "\n"] + SplitLines(rest)
  {
    var s := l + "\n" + rest;
    assert forall x :: 0 <= x < |l| ==> s[x] == l[x];
    assert s[|l|] == '\n';
    NextBreakAt(s, 0, |l|);
    assert LineEnd(s) == |l| + 1;
    assert s[..|l| + 1] == l + "\n";
    assert s[|l| + 1..] == rest;
  }

  /** A non-empty string without boundaries is one piece. */
  lemma SplitLinesOne(l: string)
    requires l != [] && NoBreaks(l)
    ensures SplitLines(l) == [l]
  {
    NextBreakAt(l, 0, |l|);
    assert l[..|l|] == l && l[|l|..] == [];
  }

  lemma {:induction false} NextBreakAt(s: string, from: nat, k: nat)
    requires from <= k <= |s|
    requires forall x :: from <= x < k ==> !IsBreak(s[x])
    requires k == |s| || IsBreak(s[k])
    ensures NextBreak(s, from) == k
    decreases k - from
  {
    if from < k {
      NextBreakAt(s, from + 1, k);
    }
  }

  // ---------------------------------------------------------------------------
  // indent

  lemma {:induction false} PrefixedNothing(ls: seq<string>)
    ensures Prefixed(ls, "") == ls
  {
    if ls != [] {
      PrefixedNothing(ls[1..]);
      assert "" + ls[0] == ls[0];
    }
  }

  /** An empty prefix changes nothing. */
  lemma IndentNothing(s: string)
    ensures Indent(s, "") == s
  {
    PrefixedNothing(SplitLines(s));
    SplitLinesJoin(s);
  }

  lemma {:induction false} PrefixedBlank(ls: seq<string>, prefix: string)
    requires forall k :: 0 <= k < |ls| ==> Blank(ls[k])
    ensures Prefixed(ls, prefix) == ls
  {
    if ls != [] {
      PrefixedBlank(ls[1..], prefix);
    }
  }

  lemma {:induction false} BlankPieces(s: string)
    requires Blank(s)
    ensures forall k :: 0 <= k < |SplitLines(s)| ==> Blank(SplitLines(s)[k])
    decreases |s|
  {
    if s != [] {
      var e := LineEnd(s);
      var r := SplitLines(s);
      assert Blank(s[e..]) by {
        forall x | 0 <= x < |s[e..]| ensures IsSpace(s[e..][x]) {
          assert s[e..][x] == s[e + x];
        }
      }
      BlankPieces(s[e..]);
      assert r[1..] == SplitLines(s[e..]);
      forall k | 0 <= k < |r| ensures Blank(r[k]) {
        if k > 0 {
          assert r[k] == r[1..][k - 1];
        } else {
          assert forall x :: 0 <= x < e ==> r[0][x] == s[x];
        }
      }
    }
  }

  /** Text that is whitespace only is left as it is. */
  lemma IndentBlank(s: string, prefix: string)
    requires Blank(s)
    ensures Indent(s, prefix) == s
  {
    BlankPieces(s);
    PrefixedBlank(SplitLines(s), prefix);
    SplitLinesJoin(s);
  }

  lemma PrefixedCons(l: string, ls: seq<string>, prefix: string)
    ensures Prefixed([l] + ls, prefix) == [if Blank(l) then l else prefix + l] + Prefixed(ls, prefix)
  {
    var q := [l] + ls;
    assert q[0] == l && q[1..] == ls;
  }

  /** Blank(l + "\n") exactly when Blank(l). */
  lemma BlankNewline(l: string)
    ensures Blank(l + "\n") <==> Blank(l)
  {
    assert forall x :: 0 <= x < |l| ==> (l + "\n")[x] == l[x];
    assert (l + "\n")[|l|] == '\n';
  }

  /** Indenting lines that hold no boundary, each ended by \n, then some
      text: each line that is not blank gets the prefix, and the text is
      indented on its own. */
  lemma {:induction false} IndentUnlines(ls: seq<string>, t: string, prefix: string)
    requires forall k :: 0 <= k < |ls| ==> NoBreaks(ls[k])
    ensures Indent(Unlines(ls) + t, prefix) == Unlines(Prefixed(ls, prefix)) + Indent(t, prefix)
  {
    if ls == [] {
      assert Unlines(ls) + t == t;
      assert Unlines(Prefixed(ls, prefix)) == [];
    } else {
      var l, tl := ls[0], ls[1..];
      var pl := if Blank(l) then l else prefix + l;
      var rest := Unlines(tl) + t;
      var padded := Unlines(Prefixed(tl, prefix));
      assert Indent(Unlines(ls) + t, prefix) == pl + "\n" + Indent(rest, prefix) by {
        assert Unlines(ls) + t == l + "\n" + rest;
        IndentCons(l, rest, prefix);
      }
      assert Indent(rest, prefix) == padded + Indent(t, prefix) by {
        IndentUnlines(tl, t, prefix);
      }
      assert Unlines(Prefixed(ls, prefix)) == pl + "\n" + padded by {
        var q := Prefixed(ls, prefix);
        assert q[0] == pl && q[1..] == Prefixed(tl, prefix);
      }
      Regroup(pl + "\n", padded, Indent(t, prefix));
    }
  }

  lemma Regroup(a: string, b: string, c: string)
    ensures a + (b + c) == (a + b) + c
  {
  }

  /** One line without boundaries, ended by \n, in front of some text. */
  lemma IndentCons(l: string, rest: string, prefix: string)
    requires NoBreaks(l)
    ensures Indent(l + "\n" + rest, prefix) ==
      (if Blank(l) then l else prefix + l) + "\n" + Indent(rest, prefix)
  {
    SplitLinesCons(l, rest);
    BlankNewline(l);
    var ln := l + "\n";
    var piece := if Blank(ln) then ln else prefix + ln;
    PrefixedCons(ln, SplitLines(rest), prefix);
    ConcatCons(piece, Prefixed(SplitLines(rest), prefix));
  }

  /** A leading empty line is kept as it is. */
  lemma IndentNewline(rest: string, prefix: string)
    ensures Indent("\n" + rest, prefix) == "\n" + Indent(rest, prefix)
  {
    IndentCons("", rest, prefix);
    assert "" + "\n" + rest == "\n" + rest;
    assert "" + "\n" + Indent(rest, prefix) == "\n" + Indent(rest, prefix);
  }

  /** A single line that is not blank and holds no boundary just gets the prefix. */
  lemma IndentOne(l: string, prefix: string)
    requires !Blank(l) && NoBreaks(l)
    ensures Indent(l, prefix) == prefix + l
  {
    SplitLinesOne(l);
    assert Prefixed([l], prefix) == [prefix + l];
    ConcatCons(prefix + l, []);
  }

  // ---------------------------------------------------------------------------
  // rstrip, then indent

  /** Lines that hold no boundary and are not blank. */
  predicate PlainLines(ls: seq<string>) {
    forall x :: 0 <= x < |ls| ==> NoBreaks(ls[x]) && !Blank(ls[x])
  }

  lemma PlainLinesAppend(a: seq<string>, b: seq<string>)
    requires PlainLines(a) && PlainLines(b)
    ensures PlainLines(a + b)
  {
    forall x | 0 <= x < |a + b| ensures NoBreaks((a + b)[x]) && !Blank((a + b)[x]) {
      if x >= |a| {
        assert (a + b)[x] == b[x - |a|];
      }
    }
  }

  /** The lines with the prefix in front of each. */
  function Prefix(ls: seq<string>, prefix: string): (r: seq<string>)
    ensures |r| == |ls|
    ensures forall x :: 0 <= x < |ls| ==> r[x] == prefix + ls[x]
  {
    if ls == [] then [] else [prefix + ls[0]] + Prefix(ls[1..], prefix)
  }

  lemma {:induction false} UnlinesAppend(a: seq<string>, b: seq<string>)
    ensures Unlines(a + b) == Unlines(a) + Unlines(b)
  {
    if a != [] {
      UnlinesAppend(a[1..], b);
      assert (a + b)[0] == a[0] && (a + b)[1..] == a[1..] + b;
      Regroup(a[0] + "\n", Unlines(a[1..]), Unlines(b));
    } else {
      assert a + b == b;
    }
  }

  /** rstrip only ever touches the tail that is blank. */
  lemma {:induction false} RStripKeep(a: string, b: string)
    requires RStrip(b) != []
    ensures RStrip(a + b) == a + RStrip(b)
    decreases |b|
  {
    if IsSpace(b[|b| - 1]) {
      var b' := b[..|b| - 1];
      assert (a + b)[..|a + b| - 1] == a + b';
      RStripKeep(a, b');
    }
  }

  /** Stripping a line that is not blank leaves a line that is not blank, and
      a final newline goes with the stripping. */
  lemma NotBlankStrip(l: string)
    requires !Blank(l) && NoBreaks(l)
    ensures RStrip(l) != [] && !Blank(RStrip(l)) && NoBreaks(RStrip(l))
    ensures RStrip(l + "\n") == RStrip(l)
  {
    var r := RStrip(l);
    assert (l + "\n")[..|l + "\n"| - 1] == l;
  }

  lemma {:induction false} PrefixedPlain(ls: seq<string>, pad: string)
    requires forall x :: 0 <= x < |ls| ==> !Blank(ls[x])
    ensures Prefixed(ls, pad) == Prefix(ls, pad)
  {
    if ls != [] {
      PrefixedPlain(ls[1..], pad);
    }
  }

  /** An empty line followed by plain lines, each ended by a newline, then
      stripped at the end and indented: the empty line stays, every other
      line gets the prefix, the last one loses its trailing blanks and its
      newline. */
  lemma IndentStripped(ls: seq<string>, pad: string)
    requires |ls| >= 1 && PlainLines(ls)
    ensures Indent(RStrip("\n" + Unlines(ls)), pad) ==
      "\n" + Unlines(Prefix(ls[..|ls| - 1], pad)) + pad + RStrip(ls[|ls| - 1])
  {
    var init := ls[..|ls| - 1];
    var kept := StripLast(ls);
    EmptyHead(init, pad);
    IndentUnlines([""] + init, kept, pad);
    IndentOne(kept, pad);
    Regroup("\n" + Unlines(Prefix(init, pad)), pad, kept);
  }

  /** An empty line before plain lines: no line holds a boundary, and
      indenting keeps the empty line and prefixes the others. */
  lemma EmptyHead(init: seq<string>, pad: string)
    requires PlainLines(init)
    ensures forall x :: 0 <= x < |[""] + init| ==> NoBreaks(([""] + init)[x])
    ensures Unlines(Prefixed([""] + init, pad)) == "\n" + Unlines(Prefix(init, pad))
  {
    var head := [""] + init;
    forall x | 0 <= x < |head| ensures NoBreaks(head[x]) {
      if x > 0 {
        assert head[x] == init[x - 1];
      }
    }
    PrefixedPlain(init, pad);
    assert Prefixed(head, pad) == [""] + Prefix(init, pad) by {
      assert head[0] == "" && head[1..] == init;
    }
    UnlinesEmptyHead(Prefix(init, pad));
  }

  lemma UnlinesEmptyHead(ls: seq<string>)
    ensures Unlines([""] + ls) == "\n" + Unlines(ls)
  {
    var q := [""] + ls;
    assert q[0] == "" && q[1..] == ls;
  }

  /** Adding a last line to the lines adds it and its newline to the text. */
  lemma UnlinesSnoc(p: string, init: seq<string>, last: string)
    ensures p + Unlines(init + [last]) == (p + Unlines(init)) + (last + "\n")
  {
    UnlinesAppend(init, [last]);
    assert Unlines([last]) == last + "\n";
    Regroup(p, Unlines(init), last + "\n");
  }

  /** rstrip removes the final newline and the last line's trailing blanks. */
  lemma StripLast(ls: seq<string>) returns (kept: string)
    requires |ls| >= 1 && PlainLines(ls)
    ensures kept == RStrip(ls[|ls| - 1]) && !Blank(kept) && NoBreaks(kept)
    ensures RStrip("\n" + Unlines(ls)) == Unlines([""] + ls[..|ls| - 1]) + kept
  {
    var init, last := ls[..|ls| - 1], ls[|ls| - 1];
    assert ls == init + [last];
    UnlinesSnoc("\n", init, last);
    kept := RStrip(last);
    NotBlankStrip(last);
    RStripKeep("\n" + Unlines(init), last + "\n");
    UnlinesEmptyHead(init);
  }
}

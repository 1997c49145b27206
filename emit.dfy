/** output_task (tp2tj.py lines 52-79): the task tree printed as taskjuggler
    `task` blocks. Each call of print becomes one Printed record, tagged with
    the task that printed it; print adds a newline after each. */
module Emit {
  import opened Wrappers
  import opened Text
  import opened Tags
  import opened Outline
  import opened TextWrap

  /** INDENT (line 11): spaces per level. */
  const INDENT := 2

  /** indent(lvl) (lines 53-54); Python's `' ' * n` is empty for n <= 0, so the
      root (level -1) gets no indentation. */
  function Pad(level: int): (r: string)
    ensures |r| == if level < 0 then 0 else INDENT * level
    ensures forall k :: 0 <= k < |r| ==> r[k] == ' '
    ensures Blank(r)
  {
    if level < 0 then "" else Spaces(INDENT * level)
  }

  /** Lines 58-59: the task's parent has an `allocate` tag, and so has the task
      (both are dict-key tests). */
  predicate Purges(ts: seq<Node>, i: nat)
    requires Arena(ts) && i < |ts|
  {
    && ts[i].parent.Some?
    && "allocate" in ts[ts[i].parent.value].tags.keys
    && "allocate" in ts[i].tags.keys
  }

  /** Lines 63-64: a value that is None or empty prints as nothing. */
  function ValText(v: Option<string>): (r: string)
    ensures r == [] <==> v.None? || v.value == []
    ensures v.Some? && v.value != [] ==> r == v.value
  {
    if v.None? then "" else v.value
  }

  /** Line 65 for one tag. */
  function TagLine(k: string, v: Option<string>): string {
    "  " + k + " " + ValText(v)
  }

  /** Lines 62-65: one line per tag, in insertion order. */
  function TagLines(keys: seq<string>, vals: map<string, Option<string>>): (r: seq<string>)
    requires forall k :: k in keys ==> k in vals
    ensures |r| == |keys|
    ensures forall x :: 0 <= x < |keys| ==> r[x] == TagLine(keys[x], vals[keys[x]])
  {
    if keys == [] then [] else [TagLine(keys[0], vals[keys[0]])] + TagLines(keys[1..], vals)
  }

  /** Line 56: the header of task n's block. */
  function Header(n: Node): string {
    "task \"" + n.desc + "\" {"
  }

  /** The lines lines 56-65 append to `out`, each ended by a newline: the
      header, the purge line when `purge` holds, and one line per tag. */
  function BlockLines(n: Node, purge: bool): (r: seq<string>)
    requires n.tags.Valid()
    ensures var o := if purge then 2 else 1;
      && |r| == o + |n.tags.keys|
      && r[0] == Header(n)
      && (purge ==> r[1] == "  purge allocate")
      && forall x :: 0 <= x < |n.tags.keys| ==> r[o + x] == TagLine(n.tags.keys[x], n.tags.vals[n.tags.keys[x]])
  {
    [Header(n)] + (if purge then ["  purge allocate"] else []) + TagLines(n.tags.keys, n.tags.vals)
  }

  /** Lines 56-65: `out` before it is stripped, an empty line and then the
      block's lines. */
  function Raw(n: Node, purge: bool): string
    requires n.tags.Valid()
  {
    "\n" + Unlines(BlockLines(n, purge))
  }

  /** Lines 68-70: the block, stripped at the end and indented. */
  function Block(n: Node, purge: bool): string
    requires n.tags.Valid()
  {
    Indent(RStrip(Raw(n, purge)), Pad(n.level))
  }

  /** The block of task i of the tree. */
  function BlockOf(ts: seq<Node>, i: nat): string
    requires Arena(ts) && TagsOk(ts) && i < |ts|
  {
    Block(ts[i], Purges(ts, i))
  }

  /** Line 79: the closing brace of task i. */
  function Closing(ts: seq<Node>, i: nat): (r: string)
    requires i < |ts|
    ensures |r| == |Pad(ts[i].level)| + 1 && r[|r| - 1] == '}'
    ensures forall k :: 0 <= k < |r| - 1 ==> r[k] == ' '
  {
    Pad(ts[i].level) + "}"
  }

  /** One call of print: the block that opens a task or the brace that closes it. */
  datatype Printed = Opened(task: nat, text: string) | Closed(task: nat, text: string)

  /** output_task(ts[i]): its block unless it is the root (lines 72-73), the
      output of its children in order (lines 75-76), its closing brace unless
      it is the root (lines 78-79). */
  function Output(ts: seq<Node>, i: nat): (r: seq<Printed>)
    requires Arena(ts) && TagsOk(ts) && i < |ts|
    decreases |ts| - i, 1
  {
    var cs := ts[i].children;
    assert forall k :: 0 <= k < |cs| ==> cs[k] in cs;
    var inner := OutputChildren(ts, i, cs);
    if ts[i].root then inner
    else [Opened(i, BlockOf(ts, i))] + inner + [Closed(i, Closing(ts, i))]
  }

  /** The loop of lines 75-76 over the children cs of task i. */
  function OutputChildren(ts: seq<Node>, i: nat, cs: seq<nat>): seq<Printed>
    requires Arena(ts) && TagsOk(ts) && i < |ts|
    requires forall k :: 0 <= k < |cs| ==> i < cs[k] < |ts|
    decreases |ts| - i, 0, |cs|
  {
    if cs == [] then [] else Output(ts, cs[0]) + OutputChildren(ts, i, cs[1..])
  }

  /** What the program prints for the tree: output_task(root) (line 109). */
  function Printout(ts: seq<Node>): seq<Printed>
    requires Arena(ts) && TagsOk(ts)
  {
    Output(ts, 0)
  }

  // ---------------------------------------------------------------------------
  // Who prints what

  /** Everything output_task(ts[i]) prints comes from task i or a later task,
      never from the root, an Opened record carries the task's block and a
      Closed record its brace. */
  lemma {:induction false} OutputFrom(ts: seq<Node>, i: nat)
    requires Arena(ts) && TagsOk(ts) && i < |ts|
    ensures forall p :: p in Output(ts, i) ==>
      && i <= p.task < |ts| && !ts[p.task].root
      && p.text == if p.Opened? then BlockOf(ts, p.task) else Closing(ts, p.task)
    decreases |ts| - i, 1
  {
    var cs := ts[i].children;
    assert forall k :: 0 <= k < |cs| ==> cs[k] in cs;
    OutputChildrenFrom(ts, i, cs);
  }

  lemma {:induction false} OutputChildrenFrom(ts: seq<Node>, i: nat, cs: seq<nat>)
    requires Arena(ts) && TagsOk(ts) && i < |ts|
    requires forall k :: 0 <= k < |cs| ==> i < cs[k] < |ts|
    ensures forall p :: p in OutputChildren(ts, i, cs) ==>
      && i < p.task < |ts| && !ts[p.task].root
      && p.text == if p.Opened? then BlockOf(ts, p.task) else Closing(ts, p.task)
    decreases |ts| - i, 0, |cs|
  {
    if cs != [] {
      OutputFrom(ts, cs[0]);
      OutputChildrenFrom(ts, i, cs[1..]);
    }
  }

  /** The root prints nothing of its own: every record comes from a task of
      the file. */
  lemma RootSilent(ts: seq<Node>)
    requires Arena(ts) && TagsOk(ts)
    ensures forall p :: p in Printout(ts) ==> 1 <= p.task < |ts|
  {
    OutputFrom(ts, 0);
  }

  // ---------------------------------------------------------------------------
  // Nesting: read as brackets, the records match up

  /** A bracket matcher: an opening pushes its task, a closing must pop the
      same task; None if it does not. */
  function Scan(out: seq<Printed>, stack: seq<nat>): Option<seq<nat>> {
    if out == [] then Some(stack)
    else match out[0]
      case Opened(t, _) => Scan(out[1..], stack + [t])
      case Closed(t, _) =>
        if stack != [] && stack[|stack| - 1] == t then Scan(out[1..], stack[..|stack| - 1]) else None
  }

  /** Every block is closed by its own task's brace, innermost first. */
  predicate Nested(out: seq<Printed>) {
    Scan(out, []) == Some([])
  }

  lemma {:induction false} ScanAppend(a: seq<Printed>, b: seq<Printed>, stack: seq<nat>)
    ensures Scan(a + b, stack) == if Scan(a, stack).None? then None else Scan(b, Scan(a, stack).value)
  {
    if a != [] {
      assert (a + b)[0] == a[0] && (a + b)[1..] == a[1..] + b;
      match a[0]
      case Opened(t, _) => ScanAppend(a[1..], b, stack + [t]);
      case Closed(t, _) =>
        if stack != [] && stack[|stack| - 1] == t {
          ScanAppend(a[1..], b, stack[..|stack| - 1]);
        }
    } else {
      assert a + b == b;
    }
  }

  /** What output_task prints leaves any stack of open tasks as it found it. */
  lemma {:induction false} OutputBalanced(ts: seq<Node>, i: nat, stack: seq<nat>)
    requires Arena(ts) && TagsOk(ts) && i < |ts|
    ensures Scan(Output(ts, i), stack) == Some(stack)
    decreases |ts| - i, 1
  {
    var cs := ts[i].children;
    assert forall k :: 0 <= k < |cs| ==> cs[k] in cs;
    var inner := OutputChildren(ts, i, cs);
    OutputChildrenBalanced(ts, i, cs, stack);
    OutputChildrenBalanced(ts, i, cs, stack + [i]);
    if !ts[i].root {
      Wrapped(i, BlockOf(ts, i), inner, Closing(ts, i), stack);
    }
  }

  /** A balanced run between a task's opening and its closing is balanced. */
  lemma Wrapped(t: nat, a: string, inner: seq<Printed>, b: string, stack: seq<nat>)
    requires Scan(inner, stack + [t]) == Some(stack + [t])
    ensures Scan([Opened(t, a)] + inner + [Closed(t, b)], stack) == Some(stack)
  {
    var open, close := [Opened(t, a)], [Closed(t, b)];
    ScanAppend(open, inner + close, stack);
    ScanAppend(inner, close, stack + [t]);
    assert (stack + [t])[..|stack + [t]| - 1] == stack;
    assert Scan(close, stack + [t]) == Scan([], stack);
    assert open + (inner + close) == open + inner + close;
  }

  lemma {:induction false} OutputChildrenBalanced(ts: seq<Node>, i: nat, cs: seq<nat>, stack: seq<nat>)
    requires Arena(ts) && TagsOk(ts) && i < |ts|
    requires forall k :: 0 <= k < |cs| ==> i < cs[k] < |ts|
    ensures Scan(OutputChildren(ts, i, cs), stack) == Some(stack)
    decreases |ts| - i, 0, |cs|
  {
    if cs != [] {
      OutputBalanced(ts, cs[0], stack);
      OutputChildrenBalanced(ts, i, cs[1..], stack);
      ScanAppend(Output(ts, cs[0]), OutputChildren(ts, i, cs[1..]), stack);
    }
  }

  /** The program's output is properly nested. */
  lemma PrintoutNested(ts: seq<Node>)
    requires Arena(ts) && TagsOk(ts)
    ensures Nested(Printout(ts))
  {
    OutputBalanced(ts, 0, []);
  }

  // ---------------------------------------------------------------------------
  // The text of a block

  /** A task whose description, tag names and values hold no line boundary,
      and whose tag names are not blank. */
  predicate Plain(n: Node) {
    && NoBreaks(n.desc)
    && forall k :: k in n.tags.keys ==>
         && NoBreaks(k) && !Blank(k)
         && (k in n.tags.vals ==> NoBreaks(ValText(n.tags.vals[k])))
  }

  /** For a plain task, what line 73 prints is an empty line, then the
      block's lines, each indented by two spaces per level, the last one
      stripped of trailing whitespace, and no final newline. */
  lemma BlockShape(n: Node, purge: bool)
    requires n.tags.Valid() && Plain(n)
    ensures var ls := BlockLines(n, purge); var pad := Pad(n.level);
      Block(n, purge) == "\n" + Unlines(Prefix(ls[..|ls| - 1], pad)) + pad + RStrip(ls[|ls| - 1])
  {
    LinesPlain(n, purge);
    IndentStripped(BlockLines(n, purge), Pad(n.level));
  }

  /** For every task, the empty line `out` starts with (line 56) survives
      rstrip and indent unprefixed; what follows is the block's lines, stripped
      at the end and indented. */
  lemma BlockOpensBlank(n: Node, purge: bool)
    requires n.tags.Valid()
    ensures Block(n, purge) == "\n" + Indent(RStrip(Unlines(BlockLines(n, purge))), Pad(n.level))
  {
    var body := Unlines(BlockLines(n, purge));
    RawStrip(body);
    IndentNewline(RStrip(body), Pad(n.level));
  }

  /** rstrip of `out` keeps its leading newline: the text after it starts
      with the header's `t`. */
  lemma RawStrip(body: string)
    requires body != [] && body[0] == 't'
    ensures RStrip("\n" + body) == "\n" + RStrip(body)
  {
    assert RStrip(body) != [];
    RStripKeep("\n", body);
  }

  /** Each line of a plain task's block holds no boundary and is not blank. */
  lemma LinesPlain(n: Node, purge: bool)
    requires n.tags.Valid() && Plain(n)
    ensures |BlockLines(n, purge)| >= 1 && PlainLines(BlockLines(n, purge))
  {
    HeaderPlain(n.desc);
    var head := [Header(n)];
    assert PlainLines(head);
    var lines: seq<string> := if purge then ["  purge allocate"] else [];
    PurgePlain();
    assert PlainLines(lines);
    var t := n.tags;
    var tags := TagLines(t.keys, t.vals);
    forall x | 0 <= x < |tags| ensures NoBreaks(tags[x]) && !Blank(tags[x]) {
      TagLinePlain(t.keys[x], t.vals[t.keys[x]]);
    }
    PlainLinesAppend(head, lines);
    PlainLinesAppend(head + lines, tags);
  }

  lemma HeaderPlain(desc: string)
    requires NoBreaks(desc)
    ensures NoBreaks("task \"" + desc + "\" {") && !Blank("task \"" + desc + "\" {")
  {
    var h := "task \"" + desc + "\" {";
    assert forall x :: 6 <= x < 6 + |desc| ==> h[x] == desc[x - 6];
    assert h[0] == 't';
  }

  lemma PurgePlain()
    ensures NoBreaks("  purge allocate") && !Blank("  purge allocate")
  {
    assert "  purge allocate"[2] == 'p';
  }

  lemma TagLinePlain(k: string, v: Option<string>)
    requires NoBreaks(k) && !Blank(k) && NoBreaks(ValText(v))
    ensures NoBreaks(TagLine(k, v)) && !Blank(TagLine(k, v))
  {
    var l := TagLine(k, v);
    assert forall x :: 2 <= x < 2 + |k| ==> l[x] == k[x - 2];
    var x :| 0 <= x < |k| && !IsSpace(k[x]);
    assert l[2 + x] == k[x];
    assert forall x :: 3 + |k| <= x < |l| ==> l[x] == ValText(v)[x - 3 - |k|];
  }
}

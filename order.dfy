/** The order in which output_task (tp2tj.py lines 52-79) prints the blocks
    of a tree that proc (lines 85-107) built from well-formed input: each task
    once, in the order of the task lines of the file. The subtree of a task is
    the run of later tasks deeper than it, so the depth-first walk of lines
    75-76 visits the tasks by increasing index. */
module Order {
  import opened Wrappers
  import opened Text
  import opened Tags
  import opened Outline
  import opened Nesting
  import opened Emit

  /** The tasks whose blocks the records open, in order. */
  function Opens(out: seq<Printed>): (r: seq<nat>)
    ensures |r| <= |out|
  {
    if out == [] then [] else (if out[0].Opened? then [out[0].task] else []) + Opens(out[1..])
  }

  /** lo, lo + 1, ..., hi - 1. */
  function Range(lo: nat, hi: nat): (r: seq<nat>)
    requires lo <= hi
    ensures |r| == hi - lo && forall x :: 0 <= x < |r| ==> r[x] == lo + x
    decreases hi - lo
  {
    if lo == hi then [] else [lo] + Range(lo + 1, hi)
  }

  /** The first task after i that is not deeper than i, or |ts|: the end of
      the run of tasks below i. */
  function End(ts: seq<Node>, i: nat): (e: nat)
    requires i < |ts|
    ensures i < e <= |ts|
  {
    EndFrom(ts, i, i + 1)
  }

  /** The run below i: every task up to End(ts, i) is deeper than i, and the
      task at End(ts, i), if any, is not. */
  lemma RunBelow(ts: seq<Node>, i: nat)
    requires i < |ts|
    ensures forall q :: i < q < End(ts, i) ==> ts[q].level > ts[i].level
    ensures End(ts, i) == |ts| || ts[End(ts, i)].level <= ts[i].level
  {
  }

  function EndFrom(ts: seq<Node>, i: nat, j: nat): (e: nat)
    requires i < j <= |ts|
    requires forall q :: i < q < j ==> ts[q].level > ts[i].level
    ensures j <= e <= |ts|
    ensures forall q :: i < q < e ==> ts[q].level > ts[i].level
    ensures e == |ts| || ts[e].level <= ts[i].level
    decreases |ts| - j
  {
    if j == |ts| || ts[j].level <= ts[i].level then j else EndFrom(ts, i, j + 1)
  }

  /** The nesting proc gives a tree of well-formed input: every parent one
      level up and the nearest such task before its child. */
  ghost predicate Levelled(ts: seq<Node>) {
    Arena(ts) && LevelsOk(ts) && Nearest(ts)
  }

  /** A well-formed tree, as proc builds it from well-formed input. */
  ghost predicate Tree(ts: seq<Node>) {
    Levelled(ts) && TagsOk(ts)
  }

  // ---------------------------------------------------------------------------
  // Sequences

  lemma {:induction false} OpensAppend(a: seq<Printed>, b: seq<Printed>)
    ensures Opens(a + b) == Opens(a) + Opens(b)
  {
    if a == [] {
      assert a + b == b;
    } else {
      assert (a + b)[0] == a[0] && (a + b)[1..] == a[1..] + b;
      OpensAppend(a[1..], b);
    }
  }

  lemma RangeSplit(lo: nat, mid: nat, hi: nat)
    requires lo <= mid <= hi
    ensures Range(lo, hi) == Range(lo, mid) + Range(mid, hi)
  {
  }

  /** The children lists hold exactly the tasks that name the parent, in
      increasing order. */
  lemma {:induction false} ChildrenOfMembers(ts: seq<Node>, j: nat, m: nat)
    requires m <= |ts|
    ensures var r := ChildrenOf(ts, j, m);
      && (forall c: nat :: c in r <==> c < m && ts[c].parent == Some(j))
      && (forall a, b :: 0 <= a < b < |r| ==> r[a] < r[b])
  {
    if m > 0 {
      ChildrenOfMembers(ts, j, m - 1);
      var r', r := ChildrenOf(ts, j, m - 1), ChildrenOf(ts, j, m);
      if ts[m - 1].parent == Some(j) {
        assert r == r' + [m - 1];
        forall a, b | 0 <= a < b < |r| ensures r[a] < r[b] {
          if b == |r'| {
            assert r[a] == r'[a] && r'[a] in r';
          }
        }
      } else {
        assert r == r';
      }
    }
  }

  /** Nothing strictly between two neighbours of an increasing sequence, or
      after its last element, belongs to it. */
  lemma Gap(cs: seq<nat>, k: nat, q: nat)
    requires forall a, b :: 0 <= a < b < |cs| ==> cs[a] < cs[b]
    requires k < |cs| && cs[k] < q && (k + 1 < |cs| ==> q < cs[k + 1])
    ensures q !in cs
  {
  }

  // ---------------------------------------------------------------------------
  // The runs below a task

  /** A task one level below i that comes before the end of i's run has i as
      its parent. */
  lemma ParentIs(ts: seq<Node>, i: nat, q: nat)
    requires Levelled(ts) && i < |ts| && i < q < End(ts, i)
    requires ts[q].level == ts[i].level + 1
    ensures ts[q].parent == Some(i)
  {
    RunBelow(ts, i);
    var p := ts[q].parent.value;
    var lp, lq, li := ts[p].level, ts[q].level, ts[i].level;
    assert lp == lq - 1;
    assert p < i ==> li >= lq;
    assert i < p ==> lp > li;
  }

  /** The task just after i starts i's run when it is deeper, and is then
      i's child. */
  lemma NextIsChild(ts: seq<Node>, i: nat)
    requires Levelled(ts) && i < |ts| && i + 1 < End(ts, i)
    ensures ts[i + 1].parent == Some(i)
  {
    RunBelow(ts, i);
    var p := ts[i + 1].parent.value;
    var lp, ln, li := ts[p].level, ts[i + 1].level, ts[i].level;
    assert lp == ln - 1;
    assert p < i ==> li >= ln;
  }

  /** A child of i is one level below i and inside i's run. */
  lemma ChildInside(ts: seq<Node>, i: nat, c: nat)
    requires Levelled(ts) && i < |ts| && c < |ts| && ts[c].parent == Some(i)
    ensures i < c < End(ts, i) && ts[c].level == ts[i].level + 1
  {
    RunBelow(ts, i);
    var e := End(ts, i);
    assert 1 <= c && ts[c].parent.value < c;
    var li, lc := ts[i].level, ts[c].level;
    var le := if e < |ts| then ts[e].level else li;
    assert li == lc - 1;
    assert e < c ==> le >= lc;
  }

  /** The run of a child ends where the next child begins, or, for the last
      child, where the parent's run ends. */
  lemma ChildEnd(ts: seq<Node>, i: nat, c: nat, e: nat)
    requires Levelled(ts) && i < |ts| && c < |ts| && ts[c].parent == Some(i)
    requires c < e <= End(ts, i)
    requires e == End(ts, i) || ts[e].parent == Some(i)
    requires forall q :: c < q < e ==> ts[q].parent != Some(i)
    ensures End(ts, c) == e
  {
    RunBelow(ts, i);
    RunBelow(ts, c);
    ChildInside(ts, i, c);
    forall q | c < q < e ensures ts[q].level > ts[c].level {
      if ts[q].level == ts[i].level + 1 {
        ParentIs(ts, i, q);
      }
    }
    if e < End(ts, i) {
      ChildInside(ts, i, e);
    }
  }

  /** Where the k-th of the children cs of i should end: at the next child,
      or, for the last, where i's run ends. */
  function Boundary(ts: seq<Node>, i: nat, cs: seq<nat>, k: nat): nat
    requires i < |ts| && k < |cs|
  {
    if k + 1 < |cs| then cs[k + 1] else End(ts, i)
  }

  /** The children of i, in order, split i's run: each starts inside it and
      ends where the next begins, the last where i's run ends. */
  ghost predicate SplitsRun(ts: seq<Node>, i: nat, cs: seq<nat>)
    requires i < |ts|
  {
    && (forall k :: 0 <= k < |cs| ==> i < cs[k] < End(ts, i))
    && (forall k {:trigger Boundary(ts, i, cs, k)} :: 0 <= k < |cs| ==> End(ts, cs[k]) == Boundary(ts, i, cs, k))
  }

  /** The children of i split i's run, the first one starting just after i
      and none when the run is empty. */
  ghost predicate RunShape(ts: seq<Node>, i: nat)
    requires i < |ts|
  {
    var cs := ts[i].children;
    && (cs == [] <==> End(ts, i) == i + 1)
    && (cs != [] ==> cs[0] == i + 1)
    && SplitsRun(ts, i, cs)
  }

  /** Every task's children split its run. */
  ghost predicate Shaped(ts: seq<Node>) {
    forall i :: 0 <= i < |ts| ==> RunShape(ts, i)
  }

  /** In a well-formed tree every task's children split its run. */
  lemma TreeShaped(ts: seq<Node>)
    requires Levelled(ts)
    ensures Shaped(ts)
  {
    forall i | 0 <= i < |ts| ensures RunShape(ts, i) {
      ChildrenSplitRun(ts, i);
    }
  }

  /** The children of i split i's run, the first one starting just after i. */
  lemma ChildrenSplitRun(ts: seq<Node>, i: nat)
    requires Levelled(ts) && i < |ts|
    ensures RunShape(ts, i)
  {
    var cs := ts[i].children;
    ChildrenFirst(ts, i);
    forall k | 0 <= k < |cs|
      ensures && i < cs[k] < End(ts, i)
              && End(ts, cs[k]) == Boundary(ts, i, cs, k)
    {
      ChildRun(ts, i, k);
    }
  }

  /** The first child, if any, is the task just after i. */
  lemma ChildrenFirst(ts: seq<Node>, i: nat)
    requires Levelled(ts) && i < |ts|
    ensures var cs := ts[i].children;
      && (cs == [] <==> End(ts, i) == i + 1)
      && (cs != [] ==> cs[0] == i + 1)
  {
    RunBelow(ts, i);
    var cs := ts[i].children;
    assert cs == ChildrenOf(ts, i, |ts|);
    ChildrenOfMembers(ts, i, |ts|);
    if i + 1 < End(ts, i) {
      NextIsChild(ts, i);
      assert i + 1 in cs;
    }
    if cs != [] {
      assert cs[0] in cs;
      ChildInside(ts, i, cs[0]);
      if cs[0] != i + 1 {
        assert i + 1 in cs;
      }
    }
  }

  /** The k-th child of i names i as its parent. */
  lemma ChildParent(ts: seq<Node>, i: nat, k: nat)
    requires Arena(ts) && i < |ts| && k < |ts[i].children|
    ensures var c := ts[i].children[k]; i < c < |ts| && ts[c].parent == Some(i)
    ensures k + 1 < |ts[i].children| ==> ts[i].children[k] < ts[i].children[k + 1]
  {
    ChildrenOfMembers(ts, i, |ts|);
    assert ts[i].children[k] in ts[i].children;
  }

  /** No task between the k-th child of i and where its run should end names
      i as its parent. */
  lemma NoChildBetween(ts: seq<Node>, i: nat, k: nat)
    requires Arena(ts) && i < |ts| && k < |ts[i].children|
    requires k + 1 < |ts[i].children| ==> ts[i].children[k + 1] <= End(ts, i)
    ensures var cs := ts[i].children;
      forall q :: cs[k] < q < Boundary(ts, i, cs, k) ==> ts[q].parent != Some(i)
  {
    var cs := ts[i].children;
    ChildrenOfMembers(ts, i, |ts|);
    forall q | cs[k] < q < Boundary(ts, i, cs, k) ensures ts[q].parent != Some(i) {
      Gap(cs, k, q);
    }
  }

  /** The k-th child's run ends where the next child begins, or with i's run. */
  lemma ChildRun(ts: seq<Node>, i: nat, k: nat)
    requires Levelled(ts) && i < |ts| && k < |ts[i].children|
    ensures var cs := ts[i].children;
      && i < cs[k] < End(ts, i)
      && End(ts, cs[k]) == Boundary(ts, i, cs, k)
  {
    var cs := ts[i].children;
    ChildParent(ts, i, k);
    ChildInside(ts, i, cs[k]);
    if k + 1 < |cs| {
      ChildParent(ts, i, k + 1);
      ChildInside(ts, i, cs[k + 1]);
    }
    NoChildBetween(ts, i, k);
    ChildEnd(ts, i, cs[k], Boundary(ts, i, cs, k));
  }

  // ---------------------------------------------------------------------------
  // The walk

  /** The tasks output_task(ts[i]) opens, in the order it opens them: i
      unless it is the root, then each child's tasks in turn (lines 72-76). */
  function Visit(ts: seq<Node>, i: nat): seq<nat>
    requires Arena(ts) && i < |ts|
    decreases |ts| - i, 1
  {
    var cs := ts[i].children;
    assert forall k :: 0 <= k < |cs| ==> cs[k] in cs;
    (if ts[i].root then [] else [i]) + VisitChildren(ts, i, cs)
  }

  function VisitChildren(ts: seq<Node>, i: nat, cs: seq<nat>): seq<nat>
    requires Arena(ts) && i < |ts|
    requires forall k :: 0 <= k < |cs| ==> i < cs[k] < |ts|
    decreases |ts| - i, 0, |cs|
  {
    if cs == [] then [] else Visit(ts, cs[0]) + VisitChildren(ts, i, cs[1..])
  }

  /** output_task(ts[i]) opens its blocks in the order of the walk. */
  lemma {:induction false} OpensVisit(ts: seq<Node>, i: nat)
    requires Arena(ts) && TagsOk(ts) && i < |ts|
    ensures Opens(Output(ts, i)) == Visit(ts, i)
    decreases |ts| - i, 1
  {
    var cs := ts[i].children;
    OutputStep(ts, i);
    OpensChildrenVisit(ts, i, cs);
    if !ts[i].root {
      OpensWrapped(i, BlockOf(ts, i), OutputChildren(ts, i, cs), Closing(ts, i));
    }
  }

  lemma {:induction false} OpensChildrenVisit(ts: seq<Node>, i: nat, cs: seq<nat>)
    requires Arena(ts) && TagsOk(ts) && i < |ts|
    requires forall k :: 0 <= k < |cs| ==> i < cs[k] < |ts|
    ensures Opens(OutputChildren(ts, i, cs)) == VisitChildren(ts, i, cs)
    decreases |ts| - i, 0, |cs|
  {
    if cs != [] {
      OpensVisit(ts, cs[0]);
      OpensChildrenVisit(ts, i, cs[1..]);
      OpensAppend(Output(ts, cs[0]), OutputChildren(ts, i, cs[1..]));
    }
  }

  /** The walk from task i visits the tasks of i's run in index order, i
      itself first unless it is the root. */
  lemma {:induction false} VisitInOrder(ts: seq<Node>, i: nat)
    requires Arena(ts) && Shaped(ts) && i < |ts|
    ensures Visit(ts, i) == if ts[i].root then Range(i + 1, End(ts, i)) else Range(i, End(ts, i))
    decreases |ts| - i, 1
  {
    var cs := ts[i].children;
    assert RunShape(ts, i);
    if cs != [] {
      VisitChildrenInOrder(ts, i, 0);
      assert cs[0..] == cs;
    }
  }

  /** The walk over the children from the k-th on visits the tasks from that
      child to the end of i's run. */
  lemma {:induction false} VisitChildrenInOrder(ts: seq<Node>, i: nat, k: nat)
    requires Arena(ts) && Shaped(ts) && i < |ts|
    requires k < |ts[i].children| && RunShape(ts, i)
    ensures VisitChildren(ts, i, ts[i].children[k..]) == Range(ts[i].children[k], End(ts, i))
    decreases |ts| - i, 0, |ts[i].children| - k
  {
    var cs := ts[i].children;
    var c := cs[k];
    assert cs[k..][0] == c && cs[k..][1..] == cs[k + 1..];
    assert i < c < End(ts, i) && End(ts, c) == Boundary(ts, i, cs, k);
    VisitInOrder(ts, c);
    if k + 1 < |cs| {
      VisitChildrenInOrder(ts, i, k + 1);
    } else {
      assert cs[k + 1..] == [];
    }
    RangeSplit(c, End(ts, c), End(ts, i));
  }

  /** output_task prints the task's block, its children's output and its
      closing brace, all but the children's output left out for the root. */
  lemma OutputStep(ts: seq<Node>, i: nat)
    requires Arena(ts) && TagsOk(ts) && i < |ts|
    ensures var cs := ts[i].children;
      && (forall k :: 0 <= k < |cs| ==> i < cs[k] < |ts|)
      && Output(ts, i) == if ts[i].root then OutputChildren(ts, i, cs)
        else [Opened(i, BlockOf(ts, i))] + OutputChildren(ts, i, cs) + [Closed(i, Closing(ts, i))]
  {
    var cs := ts[i].children;
    assert forall k :: 0 <= k < |cs| ==> cs[k] in cs;
  }

  /** A block's opening record, what is printed inside it and its closing
      record open the block's task, then what the inside opens. */
  lemma OpensWrapped(t: nat, a: string, inner: seq<Printed>, b: string)
    ensures Opens([Opened(t, a)] + inner + [Closed(t, b)]) == [t] + Opens(inner)
  {
    var open, close := [Opened(t, a)], [Closed(t, b)];
    OpensAppend(open + inner, close);
    OpensAppend(open, inner);
    assert Opens(open) == [t];
    assert Opens(close) == [];
  }

  /** The root's run is the whole file. */
  lemma RootRun(ts: seq<Node>)
    requires Arena(ts)
    ensures End(ts, 0) == |ts|
  {
    RunBelow(ts, 0);
  }

  /** The program prints the blocks of all tasks of the file, each once, in
      the order of their task lines. */
  lemma PrintedInOrder(ts: seq<Node>)
    requires Tree(ts)
    ensures Opens(Printout(ts)) == Range(1, |ts|)
  {
    OpensVisit(ts, 0);
    TreeShaped(ts);
    VisitInOrder(ts, 0);
    RootRun(ts);
  }

  /** From a well-formed file: the k-th block printed belongs to the task
      made from the k-th task line, every block is closed by its own brace in
      nested order, and no record comes from the root. */
  lemma WellFormedOutput(lines: seq<string>, reg: seq<TagDef>)
    requires WellFormed(lines)
    ensures Build(lines, reg).Ok?
    ensures var ts := Build(lines, reg).value;
      && |ts| == 1 + |TaskLines(lines)|
      && Opens(Printout(ts)) == Range(1, |ts|)
      && Nested(Printout(ts))
      && (forall p :: p in Printout(ts) ==> 1 <= p.task < |ts|)
      && forall k :: 0 <= k < |TaskLines(lines)| ==> Carries(ts[1 + k], Entries(TaskLines(lines), reg)[k])
  {
    WellFormedBuild(lines, reg);
    var ts := Build(lines, reg).value;
    PrintedInOrder(ts);
    PrintoutNested(ts);
    RootSilent(ts);
  }
}

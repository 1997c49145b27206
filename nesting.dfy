/** What the loop of proc (tp2tj.py lines 85-107) builds from an outline:
    for well-formed input every task hangs under the nearest earlier task one
    level up, `pstk` holds the root and the parent's proper ancestors, and the
    run cannot fail; an indented first task line is the one way to hit the
    `children[-1]` failure of line 101. */
module Nesting {
  import opened Wrappers
  import opened Text
  import opened Tags
  import opened Outline

  // ---------------------------------------------------------------------------
  // The input side: task lines and well-formed indentation

  /** The lines that create a task, in order, as (level, text). */
  function TaskLines(lines: seq<string>): (r: seq<(nat, string)>)
    ensures |r| <= |lines|
  {
    if lines == [] then []
    else (match Classify(lines[0]) case None => [] case Some(t) => [t]) + TaskLines(lines[1..])
  }

  /** The levels of the task lines, in order. */
  function LevelsOf(tl: seq<(nat, string)>): (r: seq<nat>)
    ensures |r| == |tl|
  {
    if tl == [] then [] else [tl[0].0] + LevelsOf(tl[1..])
  }

  /** The first level is at most `bound`, and each later one at most one
      deeper than the one before it. */
  predicate Admissible(bound: int, levels: seq<nat>)
    decreases |levels|
  {
    levels == [] || (levels[0] <= bound && Admissible(levels[0] + 1, levels[1..]))
  }

  /** Well-formed indentation: the first task line at level 0, and no task
      line more than one tab deeper than the previous task line. */
  predicate WellFormed(lines: seq<string>) {
    Admissible(0, LevelsOf(TaskLines(lines)))
  }

  /** What the task lines contribute, in order. */
  function Entries(tl: seq<(nat, string)>, reg: seq<TagDef>): (r: seq<Entry>)
    ensures |r| == |tl|
  {
    if tl == [] then [] else [Describe(tl[0].0, tl[0].1, reg)] + Entries(tl[1..], reg)
  }

  function EntryLevels(es: seq<Entry>): (r: seq<nat>)
    ensures |r| == |es|
  {
    if es == [] then [] else [es[0].level] + EntryLevels(es[1..])
  }

  /** The entries keep the task lines' levels, and their tags are well formed. */
  lemma {:induction false} EntriesFacts(tl: seq<(nat, string)>, reg: seq<TagDef>)
    ensures EntryLevels(Entries(tl, reg)) == LevelsOf(tl)
    decreases |tl|
  {
    if tl != [] {
      var es := Entries(tl, reg);
      EntriesFacts(tl[1..], reg);
      assert es[0].level == tl[0].0 && es[1..] == Entries(tl[1..], reg);
    }
  }

  /** Placing the entries one after the other, stopping at the first error. */
  function PlaceAll(st: State, es: seq<Entry>): (r: Result<State, StructureError>)
    requires Valid(st)
    ensures r.Ok? ==> Valid(r.value)
    decreases |es|
  {
    if es == [] then Ok(st)
    else match Place(st, es[0])
      case Err(e) => Err(e)
      case Ok(st') => PlaceAll(st', es[1..])
  }

  /** A line that is no task contributes nothing and changes nothing. */
  lemma SkipLine(st: State, lines: seq<string>, reg: seq<TagDef>)
    requires Valid(st) && lines != [] && Classify(lines[0]).None?
    ensures TaskLines(lines) == TaskLines(lines[1..])
    ensures Run(st, lines, reg) == Run(st, lines[1..], reg)
  {
  }

  /** A task line contributes its entry, and the run goes on from its placement. */
  lemma TaskLine(st: State, lines: seq<string>, reg: seq<TagDef>, level: nat, text: string)
    requires Valid(st) && lines != [] && Classify(lines[0]) == Some((level, text))
    ensures Entries(TaskLines(lines), reg) == [Describe(level, text, reg)] + Entries(TaskLines(lines[1..]), reg)
    ensures var p := Place(st, Describe(level, text, reg));
      Run(st, lines, reg) == if p.Ok? then Run(p.value, lines[1..], reg) else Err(p.error)
  {
    assert TaskLines(lines) == [(level, text)] + TaskLines(lines[1..]);
  }

  lemma PlaceAllFront(st: State, e: Entry, es: seq<Entry>)
    requires Valid(st)
    ensures var p := Place(st, e);
      PlaceAll(st, [e] + es) == if p.Ok? then PlaceAll(p.value, es) else Err(p.error)
  {
    assert ([e] + es)[0] == e && ([e] + es)[1..] == es;
  }

  /** The run over the lines is the run over their entries. */
  lemma {:induction false} RunIsPlaceAll(st: State, lines: seq<string>, reg: seq<TagDef>)
    requires Valid(st)
    ensures Run(st, lines, reg) == PlaceAll(st, Entries(TaskLines(lines), reg))
    decreases |lines|
  {
    if lines != [] {
      match Classify(lines[0])
      case None =>
        SkipLine(st, lines, reg);
        RunIsPlaceAll(st, lines[1..], reg);
      case Some((level, text)) =>
        var e := Describe(level, text, reg);
        TaskLine(st, lines, reg, level, text);
        PlaceAllFront(st, e, Entries(TaskLines(lines[1..]), reg));
        if Place(st, e).Ok? {
          RunIsPlaceAll(Place(st, e).value, lines[1..], reg);
        }
    }
  }

  // ---------------------------------------------------------------------------
  // The tree side

  /** Every task is exactly one level below its parent (the root is at -1). */
  ghost predicate LevelsOk(ts: seq<Node>)
    requires Arena(ts)
  {
    forall i :: 1 <= i < |ts| ==> ts[ts[i].parent.value].level == ts[i].level - 1
  }

  /** No task between a task and its parent is shallower than the task: the
      parent is the nearest earlier task one level up. */
  ghost predicate Nearest(ts: seq<Node>)
    requires Arena(ts)
  {
    forall i, q {:trigger ts[i].parent, ts[q].level} ::
      1 <= i < |ts| && ts[i].parent.value < q < i ==> ts[q].level >= ts[i].level
  }

  /** The proper ancestors of task j, from the root down. */
  ghost function Ancestors(ts: seq<Node>, j: nat): (r: seq<nat>)
    requires Arena(ts) && j < |ts|
    ensures forall x :: 0 <= x < |r| ==> r[x] < j
    decreases j
  {
    if j == 0 then [] else Ancestors(ts, ts[j].parent.value) + [ts[j].parent.value]
  }

  /** The path from the root to the task appended last. */
  ghost function Path(ts: seq<Node>): (r: seq<nat>)
    requires Arena(ts)
    ensures |r| >= 1 && forall x :: 0 <= x < |r| ==> r[x] < |ts|
  {
    Ancestors(ts, |ts| - 1) + [|ts| - 1]
  }

  /** Each task on the path is followed only by deeper tasks (its descendants). */
  ghost predicate Rightmost(ts: seq<Node>)
    requires Arena(ts)
  {
    forall a, q {:trigger a in Path(ts), ts[q].level} :: a in Path(ts) && a < q < |ts| ==> ts[a].level < ts[q].level
  }

  /** The invariant of proc's variables on well-formed input. */
  ghost predicate Ready(st: State) {
    match st
    case State(ts, parent, pstk, lastLevel) =>
      && Valid(st)
      && LevelsOk(ts)
      && Nearest(ts)
      && Rightmost(ts)
      && pstk == [0] + Ancestors(ts, parent)
      && if |ts| == 1 then parent == 0 && lastLevel == 0
         else ts[|ts| - 1].parent == Some(parent) && ts[|ts| - 1].level == lastLevel
  }

  /** The deepest level the next task line may have. */
  ghost function MaxNext(st: State): int
    requires Valid(st)
  {
    st.tasks[|st.tasks| - 1].level + 1
  }

  /** The task holds the entry's level, description and tags. */
  predicate Carries(node: Node, e: Entry) {
    node.level == e.level && node.desc == e.desc && node.tags == e.tags
  }

  /** Two tasks with the same payload and parent (children may differ). */
  predicate Same(a: Node, b: Node) {
    a.level == b.level && a.parent == b.parent && a.desc == b.desc && a.tags == b.tags
  }

  // ---------------------------------------------------------------------------
  // Ancestors and paths

  /** Under LevelsOk a task at level L has L + 1 proper ancestors, the x-th at
      level x - 1, whose own ancestors are the ones before it. */
  lemma {:induction false} AncestorsLevels(ts: seq<Node>, j: nat)
    requires Arena(ts) && LevelsOk(ts) && j < |ts|
    ensures |Ancestors(ts, j)| == ts[j].level + 1
    ensures forall x :: 0 <= x < |Ancestors(ts, j)| ==>
      var a := Ancestors(ts, j);
      a[x] < j && ts[a[x]].level == x - 1 && Ancestors(ts, a[x]) == a[..x]
    decreases j
  {
    if j > 0 {
      var p := ts[j].parent.value;
      AncestorsLevels(ts, p);
      var a := Ancestors(ts, j);
      assert a == Ancestors(ts, p) + [p];
      forall x | 0 <= x < |a| - 1 ensures a[..x] == Ancestors(ts, p)[..x] {
      }
      assert a[..|a| - 1] == Ancestors(ts, p);
    }
  }

  /** The path to the last task has one entry per level from the root down ... */
  lemma PathSize(ts: seq<Node>)
    requires Arena(ts) && LevelsOk(ts)
    ensures |Path(ts)| == ts[|ts| - 1].level + 2
  {
    AncestorsLevels(ts, |ts| - 1);
  }

  /** ... the x-th at level x - 1, with the entries before it as its ancestors. */
  lemma {:induction false} PathAt(ts: seq<Node>, x: nat)
    requires Arena(ts) && LevelsOk(ts) && x < |Path(ts)|
    ensures ts[Path(ts)[x]].level == x - 1 && Ancestors(ts, Path(ts)[x]) == Path(ts)[..x]
  {
    var last := |ts| - 1;
    var a := Ancestors(ts, last);
    var p := Path(ts);
    assert p == a + [last];
    if x < |a| {
      AncestorsLevels(ts, last);
      assert p[x] == a[x];
      assert p[..x] == a[..x];
    } else {
      assert p[..x] == a;
      AncestorsLevels(ts, last);
    }
  }

  /** Appending a task changes no one's ancestors. */
  lemma {:induction false} AncestorsAttach(ts: seq<Node>, p: nat, node: Node, j: nat)
    requires Arena(ts) && p < |ts| && Arena(Attach(ts, p, node)) && j < |ts|
    ensures Ancestors(Attach(ts, p, node), j) == Ancestors(ts, j)
    decreases j
  {
    if j > 0 {
      AncestorsAttach(ts, p, node, ts[j].parent.value);
    }
  }

  // ---------------------------------------------------------------------------
  // One line at a time

  /** Lines 99-101 when the line is one level deeper than the last task: the
      last task becomes the parent, and the old parent is pushed. */
  lemma ResolveDeeper(st: State, level: nat, path: seq<nat>)
    requires Valid(st) && |st.tasks| > 1 && st.lastLevel >= 0
    requires |path| == st.lastLevel + 2 && level == st.lastLevel + 1
    requires path[|path| - 2] == st.parent && path[|path| - 1] == |st.tasks| - 1
    requires st.pstk == [0] + path[..|path| - 2]
    requires st.tasks[|st.tasks| - 1].parent == Some(st.parent)
    ensures Resolve(st, level) == Ok((path[level], [0] + path[..level]))
  {
    var ts := st.tasks;
    var last := |ts| - 1;
    var ch := ts[st.parent].children;
    assert ch == ChildrenOf(ts, st.parent, |ts|) == ChildrenOf(ts, st.parent, last) + [last];
    assert ch != [] && ch[|ch| - 1] == last;
    assert path[..level] == path[..|path| - 2] + [st.parent];
    assert [0] + path[..level] == st.pstk + [st.parent];
    assert Resolve(st, level) == Ok((last, st.pstk + [st.parent]));
  }

  /** Lines 102-104 when the line is no deeper than the last task: popping
      `parent.level - level + 1` entries lands on the path entry at `level`. */
  lemma ResolvePop(st: State, level: nat, path: seq<nat>)
    requires Valid(st) && st.lastLevel >= 0
    requires |path| == st.lastLevel + 2 && level <= st.lastLevel
    requires path[|path| - 2] == st.parent && st.tasks[st.parent].level == st.lastLevel - 1
    requires st.pstk == [0] + path[..|path| - 2]
    ensures Resolve(st, level) == Ok((path[level], [0] + path[..level]))
  {
    if level < st.lastLevel {
      var count := st.lastLevel - level;
      assert st.pstk[|st.pstk| - count] == path[level];
      assert st.pstk[..|st.pstk| - count] == [0] + path[..level];
    }
  }

  /** Once a task exists, the path is the parent's ancestors, the parent and
      the last task, and the stack holds all of it but the last two entries. */
  lemma PathOfReady(st: State)
    requires Ready(st) && |st.tasks| > 1
    ensures var P, last := Path(st.tasks), |st.tasks| - 1;
      && P == Ancestors(st.tasks, st.parent) + [st.parent, last]
      && |P| == st.lastLevel + 2 && st.lastLevel >= 0
      && st.pstk == [0] + P[..|P| - 2]
      && st.tasks[st.parent].level == st.lastLevel - 1
  {
    var ts := st.tasks;
    var last := |ts| - 1;
    var P := Path(ts);
    PathSize(ts);
    assert ts[last].parent == Some(st.parent);
    assert P == Ancestors(ts, st.parent) + [st.parent, last];
    assert P[..|P| - 2] == Ancestors(ts, st.parent);
  }

  /** Lines 99-104 on well-formed input: the new task's parent is the task on
      the path at its own level, and the stack is the root and that parent's
      proper ancestors. */
  lemma ResolveReady(st: State, level: nat)
    requires Ready(st) && level <= MaxNext(st)
    ensures level < |Path(st.tasks)|
    ensures Resolve(st, level) == Ok((Path(st.tasks)[level], [0] + Path(st.tasks)[..level]))
  {
    var P := Path(st.tasks);
    if |st.tasks| > 1 {
      PathOfReady(st);
      if level > st.lastLevel {
        ResolveDeeper(st, level, P);
      } else {
        ResolvePop(st, level, P);
      }
    } else {
      assert P == [0];
    }
  }

  /** Attaching a task one level below its parent keeps LevelsOk. */
  lemma AttachLevels(ts: seq<Node>, p: nat, node: Node)
    requires Arena(ts) && LevelsOk(ts) && p < |ts| && Arena(Attach(ts, p, node))
    requires node.parent == Some(p) && node.level == ts[p].level + 1
    ensures LevelsOk(Attach(ts, p, node))
  {
  }

  /** Attaching a task after tasks no shallower than it keeps Nearest. */
  lemma AttachNearest(ts: seq<Node>, p: nat, node: Node)
    requires Arena(ts) && Nearest(ts) && p < |ts| && Arena(Attach(ts, p, node))
    requires node.parent == Some(p)
    requires forall q :: p < q < |ts| ==> ts[q].level >= node.level
    ensures Nearest(Attach(ts, p, node))
  {
    var ts' := Attach(ts, p, node);
    forall i, q | 1 <= i < |ts'| && ts'[i].parent.value < q < i ensures ts'[q].level >= ts'[i].level {
      if i < |ts| {
        assert ts'[i].parent == ts[i].parent && ts'[i].level == ts[i].level;
        assert ts'[q].level == ts[q].level;
      }
    }
  }

  /** Attaching a task under a path entry p, deeper than p, makes the path
      p's ancestors, p and the new task, and keeps Rightmost. */
  lemma {:induction false} AttachRightmost(ts: seq<Node>, p: nat, node: Node)
    requires Arena(ts) && Rightmost(ts) && p < |ts| && Arena(Attach(ts, p, node))
    requires p in Path(ts) && node.parent == Some(p) && node.level > ts[p].level
    ensures Path(Attach(ts, p, node)) == Ancestors(ts, p) + [p, |ts|]
    ensures Rightmost(Attach(ts, p, node))
  {
    var ts' := Attach(ts, p, node);
    var n := |ts|;
    AncestorsAttach(ts, p, node, p);
    assert Path(ts') == Ancestors(ts, p) + [p, n];
    forall a, q | a in Path(ts') && a < q < n + 1 ensures ts'[a].level < ts'[q].level {
      if a != n {
        assert a == p || a in Ancestors(ts, p);
        if q < n {
          assert a in Path(ts) by {
            if a != p {
              AncestorOnPath(ts, p, a);
            }
          }
        } else if a != p {
          assert a < p;
          AncestorOnPath(ts, p, a);
        }
      }
    }
  }

  /** The ancestors of a path entry are on the path. */
  lemma {:induction false} AncestorOnPath(ts: seq<Node>, p: nat, a: nat)
    requires Arena(ts) && p < |ts| && p in Path(ts) && a in Ancestors(ts, p)
    ensures a in Path(ts)
  {
    AncestorsPrefix(ts, |ts| - 1, p);
  }

  /** The ancestors of an ancestor are a prefix of one's own. */
  lemma {:induction false} AncestorsPrefix(ts: seq<Node>, j: nat, p: nat)
    requires Arena(ts) && j < |ts| && (p == j || p in Ancestors(ts, j))
    ensures Ancestors(ts, p) <= Ancestors(ts, j)
    decreases j
  {
    if p != j {
      var up := ts[j].parent.value;
      if p != up {
        AncestorsPrefix(ts, up, p);
      }
    }
  }

  /** The tasks after the path entry at `level` are all at `level` or deeper. */
  lemma DeeperAfter(ts: seq<Node>, level: nat)
    requires Arena(ts) && LevelsOk(ts) && Rightmost(ts) && level < |Path(ts)|
    ensures forall q :: Path(ts)[level] < q < |ts| ==> ts[q].level >= level
  {
    var P := Path(ts);
    PathAt(ts, level);
    assert P[level] in P;
  }

  /** The new stack only holds indices of existing tasks. */
  lemma StackInRange(P: seq<nat>, level: nat, n: nat)
    requires level < |P| && forall x :: 0 <= x < |P| ==> P[x] < n
    ensures forall k :: k in [0] + P[..level] ==> k < n + 1
  {
    forall k | k in [0] + P[..level] ensures k < n + 1 {
      var x :| 0 <= x < level + 1 && ([0] + P[..level])[x] == k;
      if x > 0 {
        assert k == P[x - 1];
      }
    }
  }

  /** The state after a task line is attached under the path entry at its level. */
  lemma AttachReady(st: State, level: nat, node: Node) returns (mid: State)
    requires Ready(st) && level < |Path(st.tasks)|
    requires node.parent == Some(Path(st.tasks)[level]) && node.level == level
    requires node.children == [] && !node.root
    ensures mid == State(Attach(st.tasks, Path(st.tasks)[level], node), Path(st.tasks)[level],
                         [0] + Path(st.tasks)[..level], level)
    ensures Ready(mid)
  {
    var P := Path(st.tasks);
    mid := State(Attach(st.tasks, P[level], node), P[level], [0] + P[..level], level);
    AttachTree(st, level, node, mid);
    AttachStack(st, level, node, mid);
  }

  /** The tree part of the invariant after the attachment. */
  lemma AttachTree(st: State, level: nat, node: Node, mid: State)
    requires Ready(st) && level < |Path(st.tasks)|
    requires node.parent == Some(Path(st.tasks)[level]) && node.level == level
    requires node.children == [] && !node.root
    requires mid.tasks == Attach(st.tasks, Path(st.tasks)[level], node)
    ensures Arena(mid.tasks) && LevelsOk(mid.tasks) && Nearest(mid.tasks) && Rightmost(mid.tasks)
  {
    var ts := st.tasks;
    var P := Path(ts);
    var p := P[level];
    assert p in P;
    PathAt(ts, level);
    AttachArena(ts, p, node);
    AttachLevels(ts, p, node);
    DeeperAfter(ts, level);
    AttachNearest(ts, p, node);
    AttachRightmost(ts, p, node);
  }

  /** The variables part of the invariant after the attachment. */
  lemma AttachStack(st: State, level: nat, node: Node, mid: State)
    requires Ready(st) && level < |Path(st.tasks)|
    requires node.parent == Some(Path(st.tasks)[level]) && node.level == level
    requires node.children == [] && !node.root
    requires mid == State(Attach(st.tasks, Path(st.tasks)[level], node), Path(st.tasks)[level],
                          [0] + Path(st.tasks)[..level], level)
    ensures Arena(mid.tasks) && mid.parent < |mid.tasks|
    ensures forall k :: k in mid.pstk ==> k < |mid.tasks|
    ensures mid.pstk == [0] + Ancestors(mid.tasks, mid.parent)
    ensures mid.tasks[|mid.tasks| - 1].parent == Some(mid.parent)
    ensures mid.tasks[|mid.tasks| - 1].level == mid.lastLevel
  {
    var ts := st.tasks;
    var P := Path(ts);
    var p := P[level];
    PathAt(ts, level);
    AttachArena(ts, p, node);
    AncestorsAttach(ts, p, node, p);
    StackInRange(P, level, |ts|);
  }

  /** Placing an entry that the well-formedness bound admits succeeds and
      keeps the invariant. */
  lemma PlaceReady(st: State, e: Entry) returns (mid: State)
    requires Ready(st) && e.level <= MaxNext(st)
    ensures Place(st, e) == Ok(mid) && Ready(mid) && MaxNext(mid) == e.level + 1
  {
    ResolveReady(st, e.level);
    var P := Path(st.tasks);
    var p := P[e.level];
    mid := AttachReady(st, e.level, Hang(e, p));
    assert Place(st, e) == Ok(mid);
  }

  /** Admissible entries are all placed, and the invariant holds throughout. */
  lemma AdmissibleTail(bound: int, es: seq<Entry>)
    requires es != [] && Admissible(bound, EntryLevels(es))
    ensures es[0].level <= bound && Admissible(es[0].level + 1, EntryLevels(es[1..]))
  {
    assert EntryLevels(es) == [es[0].level] + EntryLevels(es[1..]);
  }

  lemma {:induction false} PlaceAllReady(st: State, es: seq<Entry>) returns (fin: State)
    requires Ready(st) && Admissible(MaxNext(st), EntryLevels(es))
    ensures PlaceAll(st, es) == Ok(fin) && Ready(fin)
    decreases |es|
  {
    if es == [] {
      fin := st;
    } else {
      AdmissibleTail(MaxNext(st), es);
      var mid := PlaceReady(st, es[0]);
      fin := PlaceAllReady(mid, es[1..]);
    }
  }

  /** fin extends ts by one task per entry: the existing tasks keep their
      payload and parent, and task |ts| + k carries the k-th entry. */
  ghost predicate Grows(ts: seq<Node>, fin: seq<Node>, es: seq<Entry>) {
    && |fin| == |ts| + |es|
    && (forall i {:trigger Same(fin[i], ts[i])} :: 0 <= i < |ts| ==> Same(fin[i], ts[i]))
    && (forall k :: 0 <= k < |es| ==> Carries(fin[|ts| + k], es[k]))
  }

  /** Placing one entry keeps the existing tasks' payload and appends a task
      carrying the entry. */
  lemma PlaceKeeps(st: State, e: Entry)
    requires Valid(st) && Place(st, e).Ok?
    ensures Grows(st.tasks, Place(st, e).value.tasks, [e])
  {
    var ts := Place(st, e).value.tasks;
    assert Carries(ts[|st.tasks| + 0], [e][0]);
  }

  /** Growing by one entry and then by the rest is growing by all of them. */
  lemma GrowsCons(ts: seq<Node>, mid: seq<Node>, fin: seq<Node>, es: seq<Entry>)
    requires es != [] && Grows(ts, mid, [es[0]]) && Grows(mid, fin, es[1..])
    ensures Grows(ts, fin, es)
  {
    forall i | 0 <= i < |ts| ensures Same(fin[i], ts[i]) {
      assert Same(fin[i], mid[i]) && Same(mid[i], ts[i]);
    }
    forall k | 0 <= k < |es| ensures Carries(fin[|ts| + k], es[k]) {
      if k > 0 {
        assert fin[|ts| + k] == fin[|mid| + (k - 1)] && es[k] == es[1..][k - 1];
      } else {
        assert Carries(mid[|ts| + 0], [es[0]][0]);
        assert Same(fin[|ts|], mid[|ts|]);
      }
    }
  }

  /** The first placement of a successful run: the run goes on from it. */
  lemma PlaceAllFirst(st: State, es: seq<Entry>) returns (mid: State)
    requires Valid(st) && es != [] && PlaceAll(st, es).Ok?
    ensures Place(st, es[0]) == Ok(mid)
    ensures Valid(mid) && PlaceAll(st, es) == PlaceAll(mid, es[1..])
    ensures Grows(st.tasks, mid.tasks, [es[0]])
  {
    mid := Place(st, es[0]).value;
    PlaceKeeps(st, es[0]);
  }

  /** A successful run leaves the existing tasks' payload alone and appends
      one task per entry, in order, carrying that entry. */
  lemma {:induction false} PlaceAllPayload(st: State, es: seq<Entry>)
    requires Valid(st) && PlaceAll(st, es).Ok?
    ensures Grows(st.tasks, PlaceAll(st, es).value.tasks, es)
    decreases |es|
  {
    if es != [] {
      var mid := PlaceAllFirst(st, es);
      PlaceAllPayload(mid, es[1..]);
      GrowsCons(st.tasks, mid.tasks, PlaceAll(st, es).value.tasks, es);
    } else {
      assert PlaceAll(st, es) == Ok(st);
      assert forall i :: 0 <= i < |st.tasks| ==> Same(st.tasks[i], st.tasks[i]);
    }
  }

  // ---------------------------------------------------------------------------
  // The whole input

  lemma StartReady()
    ensures Ready(Start) && MaxNext(Start) == 0
  {
    StartValid();
    assert Path(Start.tasks) == [0];
  }

  /** Well-formed input builds a tree without error in which every task is one
      level below its parent, that parent is the nearest earlier task one level
      up, children are in document order (Arena), and task k + 1 of the arena
      carries the k-th task line's level, stripped description and tags. */
  lemma {:induction false} WellFormedBuild(lines: seq<string>, reg: seq<TagDef>)
    requires WellFormed(lines)
    ensures Build(lines, reg).Ok?
    ensures var ts := Build(lines, reg).value;
      && Arena(ts) && LevelsOk(ts) && Nearest(ts)
      && |ts| == 1 + |TaskLines(lines)|
      && forall k :: 0 <= k < |TaskLines(lines)| ==> Carries(ts[1 + k], Entries(TaskLines(lines), reg)[k])
  {
    var es := Entries(TaskLines(lines), reg);
    StartReady();
    RunIsPlaceAll(Start, lines, reg);
    EntriesFacts(TaskLines(lines), reg);
    var fin := PlaceAllReady(Start, es);
    PlaceAllPayload(Start, es);
    BuildIsRun(lines, reg);
  }

  /** After any number of well-formed lines the stack is the root followed by
      the current parent's proper ancestors, from the root down. */
  lemma {:induction false} StackIsAncestors(lines: seq<string>, reg: seq<TagDef>)
    requires WellFormed(lines)
    ensures Valid(Start) && Run(Start, lines, reg).Ok?
    ensures var st := Run(Start, lines, reg).value;
      st.parent < |st.tasks| && st.pstk == [0] + Ancestors(st.tasks, st.parent)
  {
    var es := Entries(TaskLines(lines), reg);
    StartReady();
    RunIsPlaceAll(Start, lines, reg);
    EntriesFacts(TaskLines(lines), reg);
    var fin := PlaceAllReady(Start, es);
  }
}

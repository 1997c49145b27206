/** The outline reader of tp2tj.py: the Task record (lines 13-20), the root
    (line 82) and the per-line loop of proc (lines 84-107).

    The Task objects live in an arena: a sequence whose entry 0 is the root and
    whose entries name their parent and children by index. Appending to
    `parent.children` (line 107) updates the parent's entry in place. */
module Outline {
  import opened Wrappers
  import opened Text
  import opened Tags

  /** A Task: description, level (tab count; -1 for the root), parent, children
      in the order they were appended, tag dictionary, and the root flag. */
  datatype Node = Node(desc: string, level: int, parent: Option<nat>, children: seq<nat>, tags: TagMap, root: bool)

  /** Why a run aborts: `parent.children[-1]` on an empty list (line 101), or
      `pstk.pop()` on an empty list (line 104). */
  datatype StructureError = NoChildToDescend | PopFromEmpty

  /** The global root task of line 82. */
  const Root := Node("", -1, None, [], EmptyTags, true)

  // ---------------------------------------------------------------------------
  // Line classification (lines 9-10 and 90-96)

  /** PROJECT_RE `.+:$` matched against an rstripped line: at least one
      character other than a newline, then a final colon. */
  predicate IsProject(l: string) {
    |l| >= 2 && l[|l| - 1] == ':' && '\n' !in l[..|l| - 1]
  }

  /** Lines 90-93: rstrip, then rewrite a project line `text:` as `- text`. */
  function Rewrite(line: string): (r: string)
    ensures r == [] || r[|r| - 1] != '\n'
  {
    var l := RStrip(line);
    if IsProject(l) then
      assert l[..|l| - 1][|l| - 2] == l[|l| - 2];
      "- " + l[..|l| - 1]
    else l
  }

  /** TASK_RE `(\t*)- +(.*?)$` matched at the start of s: the number of leading
      tabs and the text after the dash and the run of spaces. */
  function TaskMatch(s: string): (r: Option<(nat, string)>)
    requires s == [] || s[|s| - 1] != '\n'
    ensures r.Some? ==> r.value.0 == CountLeading(s, '\t') && '\n' !in r.value.1
    ensures r.Some? ==> |r.value.1| + r.value.0 + 2 <= |s|
  {
    var t := CountLeading(s, '\t');
    if t == |s| || s[t] != '-' then None
    else
      var sp := CountLeading(s[t + 1..], ' ');
      var text := s[t + 1 + sp..];
      if sp == 0 || '\n' in text then None else Some((t, text))
  }

  /** The shape TASK_RE accepts: `level` tabs, a dash, k >= 1 spaces, then a text
      that does not start with a space and holds no newline. */
  ghost predicate TaskShape(s: string, level: nat, k: nat, text: string) {
    && s == Repeat('\t', level) + "-" + Spaces(k) + text
    && k >= 1
    && (text == [] || text[0] != ' ')
    && '\n' !in text
  }

  /** Lines 90-96: the level and the text of a task line, or None for a line
      that creates no task. */
  function Classify(line: string): (r: Option<(nat, string)>)
    ensures r.Some? ==> '\n' !in r.value.1
  {
    TaskMatch(Rewrite(line))
  }

  /** The three facts that CountLeading's contract lists single out n. */
  lemma {:induction false} CountLeadingIs(s: string, c: char, n: nat)
    requires n <= |s| && (forall k :: 0 <= k < n ==> s[k] == c) && (n == |s| || s[n] != c)
    ensures CountLeading(s, c) == n
  {
  }

  /** A string read as tabs, a dash, spaces and a rest is their concatenation. */
  lemma ShapeSplit(s: string, t: nat, sp: nat)
    requires t + 1 + sp <= |s|
    requires forall x :: 0 <= x < t ==> s[x] == '\t'
    requires s[t] == '-'
    requires forall x :: t + 1 <= x < t + 1 + sp ==> s[x] == ' '
    ensures s == Repeat('\t', t) + "-" + Spaces(sp) + s[t + 1 + sp..]
  {
    var r := Repeat('\t', t) + "-" + Spaces(sp) + s[t + 1 + sp..];
    forall x | 0 <= x < |s| ensures r[x] == s[x] {
      if x < t {
      } else if x == t {
      } else if x < t + 1 + sp {
        assert r[x] == Spaces(sp)[x - t - 1];
      } else {
        assert r[x] == s[t + 1 + sp..][x - t - 1 - sp];
      }
    }
  }

  /** TASK_RE accepts exactly the strings of TaskShape: every match has that
      shape ... */
  lemma TaskMatchSound(s: string)
    requires s == [] || s[|s| - 1] != '\n'
    requires TaskMatch(s).Some?
    ensures exists k: nat :: TaskShape(s, TaskMatch(s).value.0, k, TaskMatch(s).value.1)
  {
    var t := CountLeading(s, '\t');
    var sp := SpacesAfter(s, t);
    ShapeSplit(s, t, sp);
    assert TaskShape(s, t, sp, s[t + 1 + sp..]);
  }

  /** The run of spaces TASK_RE's ` +` consumes after the character at t. */
  lemma SpacesAfter(s: string, t: nat) returns (sp: nat)
    requires t < |s|
    ensures sp == CountLeading(s[t + 1..], ' ') && t + 1 + sp <= |s|
    ensures forall x :: t + 1 <= x < t + 1 + sp ==> s[x] == ' '
    ensures t + 1 + sp == |s| || s[t + 1 + sp] != ' '
  {
    var rest := s[t + 1..];
    sp := CountLeading(rest, ' ');
    forall x | t + 1 <= x < t + 1 + sp ensures s[x] == ' ' {
      assert s[x] == rest[x - t - 1];
    }
    if t + 1 + sp < |s| {
      assert s[t + 1 + sp] == rest[sp];
    }
  }

  /** ... and every string of that shape matches, with that level and text. */
  lemma TaskMatchComplete(s: string, level: nat, k: nat, text: string)
    requires TaskShape(s, level, k, text)
    ensures s == [] || s[|s| - 1] != '\n'
    ensures TaskMatch(s) == Some((level, text))
  {
    ShapeAt(s, level, k, text);
    CountLeadingIs(s, '\t', level);
    var rest := s[level + 1..];
    assert forall x :: 0 <= x < k ==> rest[x] == s[level + 1 + x];
    assert k == |rest| || rest[k] == text[0];
    CountLeadingIs(rest, ' ', k);
  }

  /** The characters of a string of TaskShape, position by position. */
  lemma ShapeAt(s: string, level: nat, k: nat, text: string)
    requires TaskShape(s, level, k, text)
    ensures |s| == level + 1 + k + |text| && s[level] == '-'
    ensures forall x :: 0 <= x < level ==> s[x] == '\t'
    ensures forall x :: level + 1 <= x < level + 1 + k ==> s[x] == ' '
    ensures s[level + 1 + k..] == text
    ensures s == [] || s[|s| - 1] != '\n'
  {
    var tabs := Repeat('\t', level);
    assert forall x :: 0 <= x < level ==> s[x] == tabs[x];
    assert forall x :: level + 1 <= x < level + 1 + k ==> s[x] == Spaces(k)[x - level - 1];
    if text == [] {
      assert s[|s| - 1] == ' ';
    } else {
      assert s[|s| - 1] == text[|text| - 1];
      assert text[|text| - 1] in text;
    }
  }

  /** The rewritten form `- body` of a project line is a level-0 task line. */
  lemma {:induction false} DashLine(body: string)
    requires '\n' !in body
    ensures TaskMatch("- " + body) == Some((0, body[CountLeading(body, ' ')..]))
  {
    var s := "- " + body;
    CountLeadingIs(s, '\t', 0);
    var n := CountLeading(body, ' ');
    assert s[1..] == " " + body;
    CountLeadingIs(s[1..], ' ', 1 + n);
    assert s[2 + n..] == body[n..];
    assert '\n' !in body[n..] by {
      forall x | 0 <= x < |body| - n ensures body[n..][x] != '\n' {
        assert body[n..][x] == body[n + x];
      }
    }
  }

  /** Lines 92-93: a line whose rstripped form ends in a colon after at least
      one other character becomes a level-0 task, whatever its indentation; its
      text is what precedes the colon, less the spaces that `- +` consumes. */
  lemma {:induction false} ProjectLine(line: string)
    requires IsProject(RStrip(line))
    ensures var body := RStrip(line)[..|RStrip(line)| - 1];
      Classify(line) == Some((0, body[CountLeading(body, ' ')..]))
  {
    var l := RStrip(line);
    var body := l[..|l| - 1];
    RewriteProject(line);
    DashLine(body);
  }

  /** Lines 92-93: a project line is rewritten as a dash and its text. */
  lemma RewriteProject(line: string)
    requires IsProject(RStrip(line))
    ensures var l := RStrip(line);
      && '\n' !in l[..|l| - 1]
      && Rewrite(line) == "- " + l[..|l| - 1]
  {
  }

  /** A line that is neither a task nor a project creates nothing: lines whose
      rewritten form does not match TASK_RE are skipped by the loop. */
  lemma {:induction false} NonTaskLine(line: string)
    requires !IsProject(RStrip(line))
    requires forall level: nat, k: nat, text: string :: !TaskShape(RStrip(line), level, k, text)
    ensures Classify(line) == None
  {
    if Classify(line).Some? {
      TaskMatchSound(RStrip(line));
    }
  }

  /** Lines 94-96 for a line that is no project: if its rstripped form has
      the shape TASK_RE accepts, it becomes a task with that level and text. */
  lemma PlainTaskLine(line: string, level: nat, k: nat, text: string)
    requires !IsProject(RStrip(line)) && TaskShape(RStrip(line), level, k, text)
    ensures Classify(line) == Some((level, text))
  {
    TaskMatchComplete(RStrip(line), level, k, text);
  }

  /** PROJECT_RE (line 10) on a line that rstrip has left without a final
      newline: it matches `body:` exactly when body is non-empty and, as `.`
      demands, holds no newline. */
  lemma ProjectForm(body: string)
    ensures IsProject(body + ":") <==> body != [] && '\n' !in body
  {
    var l := body + ":";
    assert l[..|l| - 1] == body;
  }

  // ---------------------------------------------------------------------------
  // The arena and the parser state

  /** The indices below n whose parent is j, in increasing (document) order. */
  function ChildrenOf(ts: seq<Node>, j: nat, n: nat): (r: seq<nat>)
    requires n <= |ts|
  {
    if n == 0 then [] else ChildrenOf(ts, j, n - 1) + (if ts[n - 1].parent == Some(j) then [n - 1] else [])
  }

  /** A well-formed task tree: the root at 0, every other task's parent before
      it, and every children list exactly the later tasks naming it as parent,
      in document order. */
  ghost predicate Arena(ts: seq<Node>) {
    && |ts| >= 1
    && ts[0].root && ts[0].parent == None && ts[0].level == -1
    && (forall i {:trigger ts[i].parent} :: 1 <= i < |ts| ==>
          !ts[i].root && ts[i].parent.Some? && ts[i].parent.value < i && ts[i].level >= 0)
    && (forall j {:trigger ChildrenOf(ts, j, |ts|)} :: 0 <= j < |ts| ==> ts[j].children == ChildrenOf(ts, j, |ts|))
    && (forall j, c :: 0 <= j < |ts| && c in ts[j].children ==> j < c < |ts|)
  }

  /** Every task's tags form a well-formed dict. */
  ghost predicate TagsOk(ts: seq<Node>) {
    forall i :: 0 <= i < |ts| ==> ts[i].tags.Valid()
  }

  /** The locals of proc: the arena, `parent`, `pstk` and `last_level`. */
  datatype State = State(tasks: seq<Node>, parent: nat, pstk: seq<nat>, lastLevel: int)

  /** Lines 85-87 (with the root of line 82). */
  const Start := State([Root], 0, [0], 0)

  ghost predicate Valid(st: State) {
    && Arena(st.tasks)
    && st.parent < |st.tasks|
    && forall k :: k in st.pstk ==> k < |st.tasks|
  }

  lemma StartValid()
    ensures Valid(Start) && TagsOk(Start.tasks)
  {
    assert EmptyTags.Valid();
  }

  lemma {:induction false} ChildrenOfSameParents(ts: seq<Node>, us: seq<Node>, j: nat, n: nat)
    requires n <= |ts| && n <= |us|
    requires forall i :: 0 <= i < n ==> ts[i].parent == us[i].parent
    ensures ChildrenOf(ts, j, n) == ChildrenOf(us, j, n)
  {
    if n > 0 {
      ChildrenOfSameParents(ts, us, j, n - 1);
    }
  }

  lemma {:induction false} ChildrenOfNone(ts: seq<Node>, j: nat, n: nat)
    requires n <= |ts|
    requires forall i :: 0 <= i < n ==> ts[i].parent != Some(j)
    ensures ChildrenOf(ts, j, n) == []
  {
    if n > 0 {
      ChildrenOfNone(ts, j, n - 1);
    }
  }

  /** Line 107: append the new task to the arena and to its parent's children. */
  function Attach(ts: seq<Node>, p: nat, node: Node): (r: seq<Node>)
    requires p < |ts|
    ensures |r| == |ts| + 1 && r[|ts|] == node
    ensures r[p].children == ts[p].children + [|ts|]
    ensures forall i :: 0 <= i < |ts| && i != p ==> r[i] == ts[i]
    ensures forall i :: 0 <= i < |ts| ==> r[i].parent == ts[i].parent && r[i].level == ts[i].level
    ensures forall i :: 0 <= i < |ts| ==> r[i].desc == ts[i].desc && r[i].tags == ts[i].tags && r[i].root == ts[i].root
  {
    ts[p := ts[p].(children := ts[p].children + [|ts|])] + [node]
  }

  /** Attaching a fresh task under an existing one keeps the tree well formed;
      in particular the new index lands last in its parent's children. */
  lemma AttachArena(ts: seq<Node>, p: nat, node: Node)
    requires Arena(ts) && p < |ts|
    requires node.parent == Some(p) && node.children == [] && !node.root
    requires node.level >= 0
    ensures Arena(Attach(ts, p, node))
  {
    AttachChildren(ts, p, node);
    AttachChildIndices(ts, p, node);
  }

  lemma AttachChildren(ts: seq<Node>, p: nat, node: Node)
    requires Arena(ts) && p < |ts| && node.parent == Some(p) && node.children == []
    ensures var r := Attach(ts, p, node);
      forall j {:trigger ChildrenOf(r, j, |r|)} :: 0 <= j < |r| ==> r[j].children == ChildrenOf(r, j, |r|)
  {
    var n := |ts|;
    var r := Attach(ts, p, node);
    forall j | 0 <= j <= n ensures r[j].children == ChildrenOf(r, j, n + 1) {
      ChildrenOfSameParents(ts, r, j, n);
      if j == n {
        ChildrenOfNone(r, j, n);
      } else {
        assert ts[j].children == ChildrenOf(ts, j, n);
      }
    }
  }

  lemma AttachChildIndices(ts: seq<Node>, p: nat, node: Node)
    requires Arena(ts) && p < |ts| && node.children == []
    ensures var r := Attach(ts, p, node);
      forall j, c :: 0 <= j < |r| && c in r[j].children ==> j < c < |r|
  {
    var n := |ts|;
    var r := Attach(ts, p, node);
    forall j, c | 0 <= j <= n && c in r[j].children ensures j < c <= n {
      if j != p && j < n {
        assert r[j] == ts[j];
      }
    }
  }

  /** Lines 99-104: the task the new one hangs under, and the stack after it. */
  function Resolve(st: State, level: nat): (r: Result<(nat, seq<nat>), StructureError>)
    requires Valid(st)
    ensures r.Ok? ==> r.value.0 < |st.tasks| && forall k :: k in r.value.1 ==> k < |st.tasks|
  {
    var p := st.tasks[st.parent];
    if level > st.lastLevel then
      if p.children == [] then Err(NoChildToDescend)
      else
        assert p.children[|p.children| - 1] in p.children;
        Ok((p.children[|p.children| - 1], st.pstk + [st.parent]))
    else
      var count := p.level - level + 1;
      if count <= 0 then Ok((st.parent, st.pstk))
      else if count > |st.pstk| then Err(PopFromEmpty)
      else
        assert st.pstk[|st.pstk| - count] in st.pstk;
        var rest: seq<nat> := st.pstk[..|st.pstk| - count];
        assert forall k :: k in rest ==> k < |st.tasks| by {
          forall k | k in rest ensures k < |st.tasks| {
            assert k in st.pstk;
          }
        }
        Ok((st.pstk[|st.pstk| - count], rest))
  }

  /** What a task line contributes to its task (lines 96-97 and 106): the
      level, the description left by extract, stripped, and the tags. */
  datatype Entry = Entry(level: nat, desc: string, tags: TagMap)

  function Describe(level: nat, text: string, reg: seq<TagDef>): (e: Entry)
    ensures e.level == level && e.tags.Valid()
  {
    var (desc, tags) := Extract(text, reg);
    Entry(level, Strip(desc), tags)
  }

  /** The task made from an entry (line 106), hung under p. */
  function Hang(e: Entry, p: nat): (n: Node)
    ensures n.parent == Some(p) && n.children == [] && !n.root
    ensures n.level == e.level && n.desc == e.desc && n.tags == e.tags
  {
    Node(e.desc, e.level, Some(p), [], e.tags, false)
  }

  /** Lines 99-107 for a task line carrying entry e: find the parent, append
      the task to its children, and remember the level. */
  function Place(st: State, e: Entry): (r: Result<State, StructureError>)
    requires Valid(st)
    ensures r.Ok? ==> Valid(r.value)
    ensures r.Ok? ==>
      var ts := r.value.tasks;
      && |ts| == |st.tasks| + 1
      && ts[|st.tasks|] == Hang(e, r.value.parent)
      && r.value.lastLevel == e.level
      && (forall i :: 0 <= i < |st.tasks| ==> ts[i].parent == st.tasks[i].parent && ts[i].level == st.tasks[i].level)
      && (forall i :: 0 <= i < |st.tasks| ==> ts[i].desc == st.tasks[i].desc && ts[i].tags == st.tasks[i].tags)
  {
    match Resolve(st, e.level)
    case Err(err) => Err(err)
    case Ok((p, stk)) =>
      AttachArena(st.tasks, p, Hang(e, p));
      Ok(State(Attach(st.tasks, p, Hang(e, p)), p, stk, e.level))
  }

  /** One iteration of the loop of lines 89-107: a line that is no task
      changes nothing, a task line is placed. */
  function Step(st: State, line: string, reg: seq<TagDef>): (r: Result<State, StructureError>)
    requires Valid(st)
    ensures r.Ok? ==> Valid(r.value)
    ensures r.Ok? && TagsOk(st.tasks) ==> TagsOk(r.value.tasks)
    ensures Classify(line).None? ==> r == Ok(st)
  {
    match Classify(line)
    case None => Ok(st)
    case Some((level, text)) =>
      var e := Describe(level, text, reg);
      PlaceTagsOk(st, e);
      Place(st, e)
  }

  /** A placement adds one task with the entry's tags and leaves the other
      tasks' tags alone. */
  lemma PlaceTagsOk(st: State, e: Entry)
    requires Valid(st) && e.tags.Valid()
    ensures Place(st, e).Ok? && TagsOk(st.tasks) ==> TagsOk(Place(st, e).value.tasks)
  {
  }

  /** The loop of lines 89-107 over the remaining lines. */
  function Run(st: State, lines: seq<string>, reg: seq<TagDef>): (r: Result<State, StructureError>)
    requires Valid(st)
    ensures r.Ok? ==> Valid(r.value)
    ensures r.Ok? && TagsOk(st.tasks) ==> TagsOk(r.value.tasks)
    decreases |lines|
  {
    if lines == [] then Ok(st)
    else
      match Step(st, lines[0], reg)
      case Err(e) => Err(e)
      case Ok(st') => Run(st', lines[1..], reg)
  }

  /** The tree proc builds from the lines of a file, before printing it. */
  function Build(lines: seq<string>, reg: seq<TagDef>): (r: Result<seq<Node>, StructureError>)
    ensures r.Ok? ==> Arena(r.value) && TagsOk(r.value)
  {
    StartValid();
    match Run(Start, lines, reg)
    case Ok(st) => Ok(st.tasks)
    case Err(e) => Err(e)
  }

  /** One more line of the loop: a step that succeeds hands the rest of the
      lines to the new state, ... */
  lemma {:induction false} RunAdvance(st: State, lines: seq<string>, i: nat, reg: seq<TagDef>, st': State)
    requires Valid(st) && i < |lines|
    requires Step(st, lines[i], reg) == Ok(st')
    ensures Valid(st')
    ensures Run(st, lines[i..], reg) == Run(st', lines[i + 1..], reg)
  {
    var rest := lines[i..];
    assert rest[0] == lines[i] && rest[1..] == lines[i + 1..];
    assert Run(st, rest, reg) == Run(st', rest[1..], reg);
  }

  /** ... and a step that fails ends the run with its error. */
  lemma {:induction false} RunStops(st: State, lines: seq<string>, i: nat, reg: seq<TagDef>, e: StructureError)
    requires Valid(st) && i < |lines|
    requires Step(st, lines[i], reg) == Err(e)
    ensures Run(st, lines[i..], reg) == Err(e)
  {
    assert lines[i..][0] == lines[i];
  }

  /** Build reports what the run from Start reports. */
  lemma {:induction false} BuildIsRun(lines: seq<string>, reg: seq<TagDef>)
    ensures Valid(Start)
    ensures Build(lines, reg) == match Run(Start, lines, reg)
      case Ok(st) => Ok(st.tasks)
      case Err(e) => Err(e)
  {
    StartValid();
  }

  /** Lines 96-104 of proc: the parent of a task at `level`, and the stack of
      its proper ancestors, found by descending one level or by popping. */
  method FindParent(st: State, level: nat) returns (r: Result<(nat, seq<nat>), StructureError>)
    requires Valid(st)
    ensures r == Resolve(st, level)
  {
    var parent := st.parent;
    var pstk := st.pstk;
    if level > st.lastLevel {
      var siblings := st.tasks[parent].children;
      if siblings == [] {
        return Err(NoChildToDescend);
      }
      pstk := pstk + [parent];
      parent := siblings[|siblings| - 1];
      return Ok((parent, pstk));
    }
    var count := st.tasks[parent].level - level + 1;
    var k := 0;
    while k < count
      invariant 0 <= k <= |st.pstk|
      invariant k == 0 || k <= count
      invariant pstk == st.pstk[..|st.pstk| - k]
      invariant parent == if k == 0 then st.parent else st.pstk[|st.pstk| - k]
    {
      if pstk == [] {
        return Err(PopFromEmpty);
      }
      parent := pstk[|pstk| - 1];
      pstk := pstk[..|pstk| - 1];
      k := k + 1;
    }
    return Ok((parent, pstk));
  }

  /** A task line whose parent is found extends the state by that task. */
  lemma StepAttaches(st: State, line: string, reg: seq<TagDef>, level: nat, text: string, p: nat, stk: seq<nat>)
    requires Valid(st)
    requires Classify(line) == Some((level, text))
    requires Resolve(st, level) == Ok((p, stk))
    ensures Step(st, line, reg) == Ok(State(Attach(st.tasks, p, Hang(Describe(level, text, reg), p)), p, stk, level))
  {
  }

  /** A task line whose parent cannot be found aborts the run. */
  lemma StepFails(st: State, line: string, reg: seq<TagDef>, level: nat, text: string, e: StructureError)
    requires Valid(st)
    requires Classify(line) == Some((level, text))
    requires Resolve(st, level) == Err(e)
    ensures Step(st, line, reg) == Err(e)
  {
  }

  /** The body of the loop of lines 89-107: one line of the file read against
      the builder's variables. */
  method Feed(st: State, line: string, reg: seq<TagDef>) returns (r: Result<State, StructureError>)
    requires Valid(st)
    ensures r == Step(st, line, reg)
  {
    var task := Classify(line);
    if task.None? {
      return Ok(st);
    }
    var (level, text) := task.value;
    var (desc, tags) := Extract(text, reg);
    var found := FindParent(st, level);
    if found.Err? {
      StepFails(st, line, reg, level, text, found.error);
      return Err(found.error);
    }
    var (parent, pstk) := found.value;
    var tasks := st.tasks;
    var n := |tasks|;
    tasks := tasks[parent := tasks[parent].(children := tasks[parent].children + [n])]
      + [Node(Strip(desc), level, Some(parent), [], tags, false)];
    assert tasks == Attach(st.tasks, parent, Hang(Describe(level, text, reg), parent));
    StepAttaches(st, line, reg, level, text, parent, pstk);
    return Ok(State(tasks, parent, pstk, level));
  }

  /** proc (lines 84-107) without the file handling: reads the lines one by one,
      keeping `parent`, `pstk` and `last_level`, and appends each task to its
      parent's children. */
  method Proc(lines: seq<string>, reg: seq<TagDef>) returns (r: Result<seq<Node>, StructureError>)
    ensures r == Build(lines, reg)
  {
    BuildIsRun(lines, reg);
    var st := Start;
    var i := 0;
    while i < |lines|
      invariant 0 <= i <= |lines|
      invariant Valid(st)
      invariant Run(Start, lines, reg) == Run(st, lines[i..], reg)
    {
      var next := Feed(st, lines[i], reg);
      if next.Err? {
        RunStops(st, lines, i, reg, next.error);
        return Err(next.error);
      }
      RunAdvance(st, lines, i, reg, next.value);
      st := next.value;
      i := i + 1;
    }
    assert lines[i..] == [];
    return Ok(st.tasks);
  }
}

/** The two ways the loop of proc (tp2tj.py lines 85-107) can abort:
    `parent.children[-1]` on a task without children (line 101), which
    happens exactly when the first task line is indented, and `pstk.pop()`
    on an empty stack (line 104), which a jump of several levels down
    followed by a return to the top can reach. */
module Failures {
  import opened Wrappers
  import opened Text
  import opened Tags
  import opened Outline
  import opened Nesting

  /** Once a task exists, the last task is a child of `parent`. */
  ghost predicate Live(st: State) {
    Valid(st) && |st.tasks| > 1 && st.tasks[|st.tasks| - 1].parent == Some(st.parent)
  }

  /** Every placement leaves the new task under the new `parent`. */
  lemma PlaceLive(st: State, e: Entry)
    requires Valid(st) && Place(st, e).Ok?
    ensures Live(Place(st, e).value)
  {
  }

  /** Once a task exists, `parent.children[-1]` always has something to take. */
  lemma LiveDescends(st: State, e: Entry)
    requires Live(st)
    ensures Place(st, e) != Err(NoChildToDescend)
  {
    var ts := st.tasks;
    var last := |ts| - 1;
    assert ts[st.parent].children == ChildrenOf(ts, st.parent, |ts|) == ChildrenOf(ts, st.parent, last) + [last];
  }

  lemma {:induction false} LiveNeverStuck(st: State, es: seq<Entry>)
    requires Live(st)
    ensures PlaceAll(st, es) != Err(NoChildToDescend)
    decreases |es|
  {
    if es != [] {
      LiveDescends(st, es[0]);
      if Place(st, es[0]).Ok? {
        PlaceLive(st, es[0]);
        LiveNeverStuck(Place(st, es[0]).value, es[1..]);
      }
    }
  }

  /** From the initial state, a first task line fails to descend exactly when
      it is indented. */
  lemma FirstPlace(e: Entry)
    ensures Valid(Start)
    ensures Place(Start, e) == Err(NoChildToDescend) <==> e.level > 0
    ensures e.level == 0 ==> Place(Start, e).Ok?
  {
    StartValid();
  }

  /** The run over the entries fails to descend exactly when the first one is
      indented. */
  lemma IndentedFirstEntry(es: seq<Entry>)
    ensures Valid(Start)
    ensures PlaceAll(Start, es) == Err(NoChildToDescend) <==> es != [] && es[0].level > 0
  {
    FirstPlace(if es == [] then Entry(0, "", EmptyTags) else es[0]);
    if es != [] && es[0].level == 0 {
      PlaceLive(Start, es[0]);
      LiveNeverStuck(Place(Start, es[0]).value, es[1..]);
    }
  }

  /** proc fails at line 101 exactly when the first task line of the file is
      indented. */
  lemma IndentedFirst(lines: seq<string>, reg: seq<TagDef>)
    ensures Build(lines, reg) == Err(NoChildToDescend) <==>
      TaskLines(lines) != [] && TaskLines(lines)[0].0 > 0
  {
    var es := Entries(TaskLines(lines), reg);
    StartValid();
    RunIsPlaceAll(Start, lines, reg);
    EntriesFacts(TaskLines(lines), reg);
    BuildIsRun(lines, reg);
    IndentedFirstEntry(es);
    if es != [] {
      assert es[0].level == EntryLevels(es)[0];
    }
  }

  /** Levels 0, 3, 5, 0: the two descents push the root and then the first
      task, and returning to level 0 under the level-3 task needs four pops
      from a stack of three. */
  lemma PopFromEmptyReachable()
    ensures Valid(Start)
    ensures PlaceAll(Start, [Entry(0, "a", EmptyTags), Entry(3, "b", EmptyTags),
                             Entry(5, "c", EmptyTags), Entry(0, "d", EmptyTags)]) == Err(PopFromEmpty)
  {
    StartValid();
    var es := [Entry(0, "a", EmptyTags), Entry(3, "b", EmptyTags), Entry(5, "c", EmptyTags), Entry(0, "d", EmptyTags)];
    var s1 := PopFirst();
    var s2 := PopSecond(s1);
    var s3 := PopThird(s2);
    PopFourth(s3);
    assert PlaceAll(s3, es[3..]) == Err(PopFromEmpty);
    assert PlaceAll(s2, es[2..]) == PlaceAll(s3, es[3..]);
    assert PlaceAll(s1, es[1..]) == PlaceAll(s2, es[2..]);
    assert PlaceAll(Start, es) == PlaceAll(s1, es[1..]);
  }

  lemma PopFirst() returns (s1: State)
    ensures Valid(Start) && Place(Start, Entry(0, "a", EmptyTags)) == Ok(s1)
    ensures Valid(s1) && |s1.tasks| == 2 && s1.parent == 0 && s1.pstk == [0] && s1.lastLevel == 0
    ensures s1.tasks[0].children == [1]
  {
    StartValid();
    s1 := Place(Start, Entry(0, "a", EmptyTags)).value;
  }

  lemma PopSecond(s1: State) returns (s2: State)
    requires Valid(s1) && |s1.tasks| == 2 && s1.parent == 0 && s1.pstk == [0] && s1.lastLevel == 0
    requires s1.tasks[0].children == [1]
    ensures Place(s1, Entry(3, "b", EmptyTags)) == Ok(s2)
    ensures Valid(s2) && |s2.tasks| == 3 && s2.parent == 1 && s2.pstk == [0, 0] && s2.lastLevel == 3
    ensures s2.tasks[1].children == [2] && s2.tasks[2].level == 3
  {
    assert s1.tasks[1].parent.value < 1;
    assert ChildrenOf(s1.tasks, 1, 0) == [];
    assert ChildrenOf(s1.tasks, 1, 1) == [];
    assert s1.tasks[1].children == ChildrenOf(s1.tasks, 1, 2) == [];
    s2 := Place(s1, Entry(3, "b", EmptyTags)).value;
  }

  lemma PopThird(s2: State) returns (s3: State)
    requires Valid(s2) && |s2.tasks| == 3 && s2.parent == 1 && s2.pstk == [0, 0] && s2.lastLevel == 3
    requires s2.tasks[1].children == [2] && s2.tasks[2].level == 3
    ensures Place(s2, Entry(5, "c", EmptyTags)) == Ok(s3)
    ensures Valid(s3) && s3.parent == 2 && s3.pstk == [0, 0, 1] && s3.lastLevel == 5 && s3.tasks[2].level == 3
  {
    s3 := Place(s2, Entry(5, "c", EmptyTags)).value;
  }

  lemma PopFourth(s3: State)
    requires Valid(s3) && s3.parent == 2 && s3.pstk == [0, 0, 1] && s3.lastLevel == 5 && s3.tasks[2].level == 3
    ensures Place(s3, Entry(0, "d", EmptyTags)) == Err(PopFromEmpty)
  {
  }
}

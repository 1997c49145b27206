# tp2tj in Dafny

`tp2tj.py` converts a tab-indented outline into nested TaskJuggler `task`
blocks. Outline lines look like `- item @tag(value)`, TaskPaper style.
This project models the converter's core and proves properties of it:

- **Tag extraction.** `extract` walks the tag registry. For each definition
  it cuts the leftmost `@marker(value)` or bare `@marker`, with its trailing
  whitespace, out of the line and records `name -> value`.
  - Module `Tags`, file `tags.dfy`.
  - Modelled as a fold over the registry.
  - The two regular expressions become scanners. `Search` is proved to
    report exactly the leftmost match.
- **Tree building.** This is the per-line loop of `proc`.
  - Module `Outline`, file `outline.dfy`.
  - A line is rstripped and a project line (`text:`) is rewritten as
    `- text`. The line is then matched against `TASK_RE`.
  - The parent is found with the `parent` / `pstk` / `last_level` state
    machine, and the new task is appended to its parent's children.
  - The loop is imperative: the methods `Proc`, `Feed` and `FindParent` are
    proved equal to the pure `Build`, `Step` and `Resolve`.
  - Tasks live in an arena, a sequence of nodes whose entry 0 is the root.
    Nodes name their parent and their children by index.
- **Facts about the built tree.**
  - Module `Nesting`, file `nesting.dfy`: what the builder produces from
    well-formed input.
  - Module `Failures`, file `failures.dfy`: the two ways it aborts.
- **Printing.** `output_task` is a recursive pre-order walk.
  - Module `Emit`, file `emit.dfy`.
  - Each `print` call becomes one `Printed` record: the task that printed
    it and the printed text.
  - A block's text is built exactly as in lines 56-70, down to `rstrip` and
    `textwrap.indent`. Those two, and `str.splitlines`, are modelled in
    module `TextWrap`, file `textwrap.dfy`.
  - Module `Order`, file `order.dfy`, proves the blocks come out in
    document order.

Three behaviours of the code that the model keeps:

- A task line more than one level deeper than the previous one can crash the
  builder. `pstk.pop()` on an empty list at line 104 is one way. The model
  reports this as `PopFromEmpty` (`Failures.PopFromEmptyReachable`).
- Nothing is printed before the whole file has been read (line 109 comes
  after the loop). An aborted run therefore prints nothing; it does not leave
  partial output behind. `Build` returns `Err` and there is no `Printout`.
- Running `extract` twice is not idempotent: a repeated bare marker survives
  the first pass (`Tags.ExtractNotIdempotent`).

## Model

| member | source | states |
|---|---|---|
| Text.IsSpace | tp2tj.py:38-40 | the characters `\s` matches in a str pattern (lines 38 and 40), which are also the ones `str.strip()` and `str.rstrip()` remove (lines 90 and 106): the characters for which `str.isspace()` holds |
| Text.LStrip | tp2tj.py:106 | the left half of `desc.strip()`: the result is a suffix of the input, everything removed is whitespace, and the result does not start with whitespace |
| Text.RStrip | tp2tj.py:90 | the result is a prefix of the input, everything removed is whitespace, and the result does not end in whitespace (str.rstrip) |
| Text.Strip | tp2tj.py:106 | `desc.strip()`: the result is the slice of the text after its leading whitespace (what lstrip removes) with only whitespace after it; empty exactly when the text is all whitespace; otherwise it neither starts nor ends in whitespace |
| Text.CountLeading | tp2tj.py:9 | the greedy `\t*` of TASK_RE: the first n characters are the given one and the next is not |
| Text.Repeat | tp2tj.py:53-54 | `' ' * n`: n copies of the character |
| Tags.TagMap.Valid | tp2tj.py:31-47 | the dict `tags` of line 31, as filled by line 47: its key list has no repeats and holds exactly the keys of its contents |
| Tags.Matches | tp2tj.py:38-40 | the two patterns: `@` and the marker at the start; for a valued tag `(`, a `)`-free value, `)`; then the maximal run of `\s`, which ends the span |
| Tags.TagMap.Put | tp2tj.py:47 | `tags[name] = value`: the key now maps to the value, every other key keeps its value, the key set gains the key; the key order is kept, a new key is appended at the end, and the dict stays well formed |
| Tags.SkipSpaces | tp2tj.py:38-40 | `\s*` consumes the maximal run of whitespace from its start |
| Tags.FindClose | tp2tj.py:38 | `[^)]*\)`: the first `)` at or after the position, with no `)` before it |
| Tags.MatchAt | tp2tj.py:38-40 | an anchored attempt of the tag pattern only reports true matches starting at that position |
| Tags.MatchAtComplete | tp2tj.py:38-40 | every match starting at a position is the one the anchored attempt reports |
| Tags.MatchUnique | tp2tj.py:38-40 | two matches of one pattern starting at the same place are equal |
| Tags.Search | tp2tj.py:38-40 | re.search: a reported match is a match, and no match starts further left |
| Tags.SearchIsLeftmost | tp2tj.py:38-40 | Search reports m if and only if m is the leftmost match |
| Tags.LeftmostIsSearch | tp2tj.py:38-40 | the leftmost match is what Search reports |
| Tags.ExtractOne | tp2tj.py:34-47 | one definition: with no match nothing changes; with one, exactly the leftmost span is cut out and `name -> value` recorded; the line does not grow; the keys gain at most this definition's name; a recorded value suits the definition (None for a bare tag, `)`-free text for a valued one) |
| Tags.ExtractAll | tp2tj.py:33-47 | the loop: the line does not grow, at most one key per definition, every key a definition's name, every value suits a definition of that name |
| Tags.Extract | tp2tj.py:30-49 | extract from an empty dict: the same facts, and the dict is well formed |
| Tags.ExtractAllNoMarker | tp2tj.py:33-47 | with no registered marker in the line, the loop changes neither line nor dict |
| Tags.ExtractNoMarker | tp2tj.py:30-49 | an empty registry, or none of its markers in the line: the line comes back unchanged with an empty dict |
| Tags.CutKeepsLater | tp2tj.py:46 | cutting a span out of the line keeps any occurrence that starts after it |
| Tags.RepeatedMarkerStays | tp2tj.py:40-47 | with a bare marker occurring twice, one step shortens the line and the marker still occurs in it |
| Tags.UnclosedValueIgnored | tp2tj.py:38-42 | a valued marker with no `)` after it does not match and changes nothing |
| Tags.PrefixOfLongerWord | tp2tj.py:40-47 | `@alloc` matches inside `@allocate`, leaving `go ate` and recording `alloc -> None` |
| Tags.ExtractNotIdempotent | tp2tj.py:30-49 | extracting `a @x @x` leaves `a @x`, and a second extraction finds the tag again |
| Outline.IsProject | tp2tj.py:10 | PROJECT_RE on the rstripped line; its meaning is stated by Outline.ProjectForm |
| Outline.ProjectForm | tp2tj.py:10 | `body:` matches PROJECT_RE exactly when body is non-empty and holds no newline (`.+` before the final `:`) |
| Outline.TaskMatch | tp2tj.py:9 | TASK_RE.match: a match's level is the number of leading tabs (`len(match.group(1))`), its text holds no newline and is shorter than the line by at least the tabs, the dash and a space; Outline.TaskMatchSound and Outline.TaskMatchComplete state exactly which lines match |
| Outline.Classify | tp2tj.py:90-96 | the level and text of the task a line creates, or None; a task text never holds a newline; the three cases are Outline.ProjectLine, Outline.PlainTaskLine and Outline.NonTaskLine |
| Outline.PlainTaskLine | tp2tj.py:94-96 | a line that is no project line and whose rstripped form has the TASK_RE shape becomes a task with that level and text |
| Outline.Rewrite | tp2tj.py:90-93 | the rstripped and rewritten line never ends in a newline |
| Outline.TaskMatchSound | tp2tj.py:9 | every string TASK_RE matches has the shape tabs, dash, at least one space, then a text that holds no newline and does not start with a space; the reported level and text are those parts |
| Outline.TaskMatchComplete | tp2tj.py:9 | every string of that shape matches, with that level and text |
| Outline.DashLine | tp2tj.py:93-94 | `- body` matches at level 0; its text is body less its leading spaces |
| Outline.RewriteProject | tp2tj.py:92-93 | unfolding helper: a project line is rewritten as `- ` plus the text before the colon |
| Outline.ProjectLine | tp2tj.py:90-96 | a line whose rstripped form has a character before a final colon becomes a level-0 task, whatever its indentation; its text is what precedes the colon, less the leading spaces that `- +` consumes |
| Outline.NonTaskLine | tp2tj.py:90-95 | a line that is neither a project line nor of task shape creates no task |
| Outline.Valid | tp2tj.py:85-107 | what the loop keeps of its locals: entry 0 is the root (level -1, no parent); every other task is not the root, has level at least 0 and an earlier task as parent; each task's children are exactly the tasks naming it as parent, in append order; `parent` and every `pstk` entry are existing tasks |
| Outline.StartValid | tp2tj.py:82-87 | the initial state (root alone; parent root; pstk [root]; last_level 0) is a well-formed tree |
| Outline.Attach | tp2tj.py:107 | appending the task puts its index last among its parent's children and changes nothing else |
| Outline.AttachArena | tp2tj.py:106-107 | appending a new task under an existing one keeps the tree well formed |
| Outline.Resolve | tp2tj.py:99-104 | a found parent and stack refer to existing tasks |
| Outline.FindParent | tp2tj.py:99-104 | the method with its pop loop returns exactly what Resolve specifies, including the two errors |
| Outline.Describe | tp2tj.py:97 | the entry keeps the level and gets a well-formed tag dict |
| Outline.Hang | tp2tj.py:106 | the new Task: parent as found, no children and not the root (the attrs defaults of lines 18-20), and the entry's level, stripped description and tags |
| Outline.Place | tp2tj.py:99-107 | on success, the tree stays well formed and gains one task (the entry's task under the new parent); last_level becomes the entry's level; earlier tasks keep parent, level, description and tags |
| Outline.Step | tp2tj.py:89-107 | one iteration keeps the state well formed and the dicts well formed; a line that is not a task leaves the state unchanged |
| Outline.PlaceTagsOk | tp2tj.py:106-107 | placing a task keeps every dict well formed |
| Outline.Run | tp2tj.py:89-107 | the loop keeps the state and the dicts well formed |
| Outline.Build | tp2tj.py:82-107 | a finished run yields a well-formed tree with well-formed dicts |
| Outline.RunAdvance | tp2tj.py:89-107 | unfolding helper: a successful step hands the remaining lines to the new state |
| Outline.RunStops | tp2tj.py:89-107 | unfolding helper: a failing step ends the run with its error |
| Outline.StepAttaches | tp2tj.py:94-107 | unfolding helper: a task line whose parent is found appends its task under that parent |
| Outline.StepFails | tp2tj.py:99-104 | unfolding helper: a task line whose parent cannot be found aborts with that error |
| Outline.Feed | tp2tj.py:90-107 | the loop body as a method equals Step |
| Outline.Proc | tp2tj.py:84-107 | the loop as a method over the lines equals Build |
| Nesting.TaskLines | tp2tj.py:89-95 | the (level, text) of each line that creates a task, in order, at most one per line; its meaning is stated by Nesting.RunIsPlaceAll and Nesting.WellFormedBuild |
| Nesting.Entries | tp2tj.py:96-106 | one entry per task line, in order: level, `desc.strip()` and tags of extract; the contents are stated by Nesting.EntriesFacts and Nesting.PlaceAllPayload |
| Nesting.PlaceAll | tp2tj.py:99-107 | placing the entries one after the other, stopping at the first error, keeps the state well formed |
| Nesting.EntriesFacts | tp2tj.py:96-97 | the entries carry the task lines' levels, in order |
| Nesting.RunIsPlaceAll | tp2tj.py:89-107 | the loop over lines equals placing the task lines' entries in order; other lines change nothing |
| Nesting.AncestorsLevels | tp2tj.py:99-107 | when every parent is one level up, a task at level L has L + 1 proper ancestors, the x-th at level x - 1 |
| Nesting.ResolveDeeper | tp2tj.py:99-101 | one level deeper: the new parent is the last task and pstk gains the old parent |
| Nesting.ResolvePop | tp2tj.py:102-104 | not deeper: popping `parent.level - level + 1` times reaches the task at that depth on the current path |
| Nesting.ResolveReady | tp2tj.py:99-104 | for an admissible level, parent resolution succeeds with the path's task at that depth and the stack of its ancestors |
| Nesting.PathOfReady | tp2tj.py:85-107 | the path to the last task is parent's ancestors, parent, last task; pstk is the root and that path's proper prefix |
| Nesting.AttachLevels | tp2tj.py:106-107 | a task hung one level below its parent keeps every parent one level up |
| Nesting.AttachNearest | tp2tj.py:106-107 | a task hung under p with no shallower task after p keeps every parent the nearest earlier task one level up |
| Nesting.AttachRightmost | tp2tj.py:107 | the new task extends the rightmost path of its parent |
| Nesting.AttachReady | tp2tj.py:99-107 | appending the task under the path's task at its depth keeps all the builder's invariants |
| Nesting.AttachTree | tp2tj.py:106-107 | appending keeps the tree, parents-one-level-up, nearest-parent and rightmost-path properties |
| Nesting.AttachStack | tp2tj.py:99-107 | after appending, pstk is the root and the new parent's ancestors, and the last task hangs under parent at last_level |
| Nesting.PlaceReady | tp2tj.py:99-107 | an admissible task line is placed without error, keeps the invariants, and allows one level deeper next |
| Nesting.PlaceAllReady | tp2tj.py:89-107 | admissible levels are placed without error and keep the invariants |
| Nesting.PlaceKeeps | tp2tj.py:106-107 | placing keeps earlier tasks' payload and adds one carrying the entry |
| Nesting.GrowsCons | tp2tj.py:106-107 | growth composes over consecutive placements |
| Nesting.PlaceAllFirst | tp2tj.py:89-107 | a successful run over entries first places the first entry |
| Nesting.PlaceAllPayload | tp2tj.py:106-107 | the k-th entry becomes the task right after the existing ones plus k, and earlier tasks keep their payload |
| Nesting.StartReady | tp2tj.py:82-87 | the initial state satisfies the invariants and admits only level 0 |
| Nesting.WellFormedBuild | tp2tj.py:82-107 | well-formed input never aborts; every parent is one level up and the nearest earlier such task; children are in document order; the k-th task line becomes task k + 1 carrying its level, stripped description and tags |
| Nesting.StackIsAncestors | tp2tj.py:85-107 | after well-formed input, pstk is the root followed by the parent's proper ancestors from the root down |
| Failures.PlaceLive | tp2tj.py:106-107 | after any placement the last task is a child of parent |
| Failures.LiveDescends | tp2tj.py:99-101 | once a task exists, `parent.children[-1]` cannot fail |
| Failures.LiveNeverStuck | tp2tj.py:99-101 | once a task exists, no later line fails at line 101 |
| Failures.FirstPlace | tp2tj.py:85-101 | the first task line fails at line 101 exactly when it is indented; at level 0 it succeeds |
| Failures.IndentedFirstEntry | tp2tj.py:99-101 | a run over entries fails at line 101 exactly when the first entry is indented |
| Failures.IndentedFirst | tp2tj.py:89-101 | proc fails at line 101 exactly when the first task line of the file is indented |
| Failures.PopFromEmptyReachable | tp2tj.py:102-104 | levels 0, 3, 5, 0 pop from an empty pstk |
| TextWrap.IsBreak | tp2tj.py:70 | the line boundaries of `str.splitlines`, which `textwrap.indent` uses: `\n`, `\r`, `\v`, `\f`, `\x1c`, `\x1d`, `\x1e`, `\x85`, `\u2028` and `\u2029` |
| TextWrap.NextBreak | tp2tj.py:70 | the first line boundary at or after a position, with none before it |
| TextWrap.SplitLines | tp2tj.py:70 | `str.splitlines(True)`, which textwrap.indent calls: no pieces exactly for the empty text; TextWrap.SplitLinesJoin and TextWrap.SplitLinesShape state the rest, and TextWrap.CrLfOnePiece shows `\r\n` kept as one boundary |
| TextWrap.Indent | tp2tj.py:70 | `textwrap.indent(out, prefix)`: the prefix in front of every piece that is not whitespace only; its effect is stated by TextWrap.IndentNothing, TextWrap.IndentBlank, TextWrap.IndentUnlines and TextWrap.IndentOne |
| TextWrap.SplitLinesJoin | tp2tj.py:70 | joining the pieces of `splitlines(True)` gives back the text |
| TextWrap.SplitLinesShape | tp2tj.py:70 | every piece is one line with its own ending, every piece but the last ends in a boundary, and no piece ends in `\r` when the next starts with `\n` (`\r\n` is one boundary) |
| TextWrap.CrLfOnePiece | tp2tj.py:70 | `"a\r\nb".splitlines(True)` is `["a\r\n", "b"]` |
| TextWrap.SplitLinesCons | tp2tj.py:70 | a line without boundaries followed by a newline is the first piece |
| TextWrap.IndentNothing | tp2tj.py:70 | indenting with an empty prefix (the root's level -1, and level 0) changes nothing |
| TextWrap.IndentBlank | tp2tj.py:70 | indenting a text of whitespace only changes nothing |
| TextWrap.IndentUnlines | tp2tj.py:70 | indenting newline-ended lines then a rest prefixes each non-blank line, then indents the rest |
| TextWrap.IndentCons | tp2tj.py:70 | indenting one line then a rest: the line gets the prefix unless blank |
| TextWrap.IndentNewline | tp2tj.py:70 | a leading empty line is left as it is and the rest is indented on its own |
| TextWrap.IndentOne | tp2tj.py:70 | a single non-blank line gets the prefix |
| TextWrap.RStripKeep | tp2tj.py:68 | rstrip touches only the blank tail |
| TextWrap.NotBlankStrip | tp2tj.py:68 | rstrip of a non-blank line is non-blank, and a final newline goes with the stripping |
| TextWrap.StripLast | tp2tj.py:68 | stripping an empty line and plain lines removes only the last newline and the last line's trailing blanks |
| TextWrap.IndentStripped | tp2tj.py:68-70 | stripping then indenting an empty line and plain lines: the empty line stays; every other line gets the prefix; the last one is stripped and has no newline |
| TextWrap.UnlinesAppend | tp2tj.py:56-65 | the text of two runs of lines is the concatenation of their texts |
| Emit.Pad | tp2tj.py:53-54 | `indent(lvl)` is 2·lvl characters, each a space, and empty for the root's level -1 |
| Emit.Purges | tp2tj.py:58-59 | the purge line is printed when the task has a parent whose tags hold `allocate` and its own tags hold `allocate` (key tests) |
| Emit.ValText | tp2tj.py:63-64 | `if not val: val = ''`: empty exactly when the value is None or empty, otherwise the value itself |
| Emit.TagLine | tp2tj.py:65 | one tag's line, two spaces, the name, a space and the value; Emit.TagLinePlain states when it is a plain line |
| Emit.Header | tp2tj.py:56 | the header line `task "<desc>" {`; Emit.BlockShape places it |
| Emit.BlockLines | tp2tj.py:56-65 | the lines `out` collects: the header first, then the purge line when it applies, then tag x's line at position x after them, and nothing else |
| Emit.Raw | tp2tj.py:56-65 | `out` before rstrip: a newline and then each block line ended by a newline; Emit.BlockOpensBlank and Emit.BlockShape state its printed form |
| Emit.Block | tp2tj.py:68-70 | `out` after rstrip and indent; stated by Emit.BlockOpensBlank for every task and by Emit.BlockShape for plain ones |
| Emit.BlockOpensBlank | tp2tj.py:56-70 | for every task, the empty line `out` starts with survives rstrip and indent without the prefix, followed by the block's lines stripped at the end and indented |
| Emit.RawStrip | tp2tj.py:68 | rstrip of `out` keeps its leading newline, because the header's `t` follows it |
| Emit.Closing | tp2tj.py:79 | the closing line: 2·level spaces and then `}` |
| Emit.Output | tp2tj.py:52-79 | output_task(t) as the records it prints; stated by Emit.OutputFrom, Emit.OutputBalanced, Order.OutputStep and Order.OpensVisit |
| Emit.OutputChildren | tp2tj.py:75-76 | the output of the children in order; stated by Emit.OutputChildrenFrom, Emit.OutputChildrenBalanced and Order.OpensChildrenVisit |
| Emit.Printout | tp2tj.py:109 | output_task(root); stated by Emit.PrintoutNested, Emit.RootSilent and Order.PrintedInOrder |
| Emit.TagLines | tp2tj.py:62-65 | one `  <name> <value>` line per tag, in insertion order |
| Emit.OutputFrom | tp2tj.py:52-79 | everything output_task(t) prints comes from t or a later task, never the root; an opening carries that task's block and a closing its indented brace |
| Emit.RootSilent | tp2tj.py:72-79 | the root prints nothing of its own: every record belongs to a task of the file |
| Emit.ScanAppend | tp2tj.py:73-79 | matching brackets over two runs of records is matching over the first, then over the second |
| Emit.Wrapped | tp2tj.py:72-79 | an opening, a balanced inside and the same task's closing are balanced |
| Emit.OutputBalanced | tp2tj.py:72-79 | what output_task prints leaves any stack of open blocks as it found it |
| Emit.OutputChildrenBalanced | tp2tj.py:75-76 | the children's output, in order, is balanced |
| Emit.PrintoutNested | tp2tj.py:109 | the program's output is properly nested: each block is closed by its own brace, innermost first |
| Emit.BlockShape | tp2tj.py:56-70 | for a plain task, the printed block is an empty line, then the header, the purge line when it applies and one line per tag, each prefixed by 2·level spaces, the last one rstripped |
| Emit.LinesPlain | tp2tj.py:56-65 | a plain task's block lines hold no line boundary and are not blank |
| Emit.TagLinePlain | tp2tj.py:65 | a tag line with a plain name and value holds no boundary and is not blank |
| Order.RunBelow | tp2tj.py:99-107 | the run below a task: the tasks up to its end are deeper, and the one at the end is not |
| Order.ParentIs | tp2tj.py:99-107 | a task one level below t inside t's run has t as its parent |
| Order.NextIsChild | tp2tj.py:99-101 | the task right after t, when deeper, is t's child |
| Order.ChildInside | tp2tj.py:99-107 | a child lies inside its parent's run, one level below |
| Order.ChildEnd | tp2tj.py:99-107 | a child's run ends where the next child starts, or where the parent's run ends |
| Order.ChildrenFirst | tp2tj.py:99-107 | the first child is the next task, and there is none exactly when the run is empty |
| Order.ChildParent | tp2tj.py:107 | the k-th child names its parent, and the children increase |
| Order.NoChildBetween | tp2tj.py:107 | no task between two consecutive children, or after the last one inside the run, is a child |
| Order.ChildRun | tp2tj.py:99-107 | the k-th child's run ends where the next child begins, or with the parent's run |
| Order.ChildrenSplitRun | tp2tj.py:99-107 | the children of a task split its run in order, the first starting right after it |
| Order.TreeShaped | tp2tj.py:99-107 | in a well-formed tree every task's children split its run |
| Order.OpensVisit | tp2tj.py:72-79 | the blocks output_task opens are the pre-order walk: the task unless root, then each child's in turn |
| Order.OpensChildrenVisit | tp2tj.py:75-76 | the children's output opens the walk over the children |
| Order.VisitInOrder | tp2tj.py:75-76 | the walk from a task visits the tasks of its run in index order |
| Order.VisitChildrenInOrder | tp2tj.py:75-76 | the walk over the children from the k-th visits the tasks from that child to the end of the run |
| Order.OutputStep | tp2tj.py:72-79 | unfolding helper: output_task prints the block, the children's output and the brace, the first and last left out for the root |
| Order.OpensWrapped | tp2tj.py:73-79 | a block's opening, its inside and its closing open the task, then what the inside opens |
| Order.RootRun | tp2tj.py:82 | the root's run is the whole file |
| Order.PrintedInOrder | tp2tj.py:52-79 | a well-formed tree prints the blocks of all its tasks, each once, in index order |
| Order.WellFormedOutput | tp2tj.py:82-109 | from well-formed input, the k-th block printed belongs to the task of the k-th task line, which carries that line's level, stripped description and tags; output is nested; the root prints nothing of its own |

## Data

The types and constants the members above work on, and what they encode.

| declaration | source | encodes |
|---|---|---|
| Outline.Node | tp2tj.py:13-20 | a `Task`: `desc` and `level` as they are; `parent` is an `Option<nat>` arena index instead of an object reference (`None` for the root); `children` is a sequence of arena indices in append order; `tags` is a `TagMap`; `root` is a bool; the defaults of lines 18-20 are filled in by `Outline.Hang` |
| Tags.TagDef | tp2tj.py:22-27 | a `TagDef`: `tag` (the marker), `name`, `has_val` as `hasVal`, and `default`, which the extractor never reads |
| Tags.TagMap | tp2tj.py:31, tp2tj.py:47 | the dict `tags`: its keys in insertion order (which `.items()` at line 62 follows) and a map from key to value; a value is `None` for a bare tag |
| Outline.Root | tp2tj.py:82 | the global root: empty description, level -1, no parent, no children, no tags, root flag set; it is entry 0 of every arena |
| Outline.State | tp2tj.py:85-87 | the locals of `proc`: the arena of tasks, `parent` as an index, `pstk` as a sequence of indices, `last_level` |
| Outline.Start | tp2tj.py:85-87 | their initial values: the root alone, `parent` the root, `pstk` holding the root, `last_level` 0 |
| Outline.StructureError | tp2tj.py:101, tp2tj.py:104 | the two IndexErrors the loop can raise: `parent.children[-1]` on an empty list (`NoChildToDescend`) and `pstk.pop()` on an empty list (`PopFromEmpty`) |
| Emit.INDENT | tp2tj.py:11 | `INDENT = 2`, spaces per level |
| Emit.Printed | tp2tj.py:73, tp2tj.py:79 | one call of `print`: `Opened` for the block of line 73, `Closed` for the brace of line 79, each with the index of the task that printed it and the text printed |

## Left out

- Reading the configuration (lines 114-128) is left out. The registry is a
  `seq<TagDef>` parameter in place of the global `TAGS`; the unused `default`
  field is kept as data.
- Opening and iterating the file (lines 88-89) and `sys.argv` (line 130) are
  left out. The input is a sequence of lines, each without its line ending.
- `print` (lines 73 and 79) is a `Printed` record holding the printed string.
  The newline `print` adds after it is not part of the record.
- Regular expressions in general are left out. Markers are taken as literal
  text with no metacharacters (lines 38 and 40 interpolate them unescaped).
  `\s` is the fixed set of characters for which `str.isspace()` holds.
- The `attrs` decorators and the commented-out line 112 are left out.
  Task objects are arena entries that name each other by index; there is no
  object identity or aliasing.
- Emit.BlockShape: proved only for tasks whose description, tag names and
  values hold no line boundary and whose tag names are not blank. For other
  tasks `Block` still computes what lines 56-70 print, through the modelled
  `splitlines` and `textwrap.indent`, but no closed form is stated.
- A tag literally named `purge` with value `allocate` prints the same line
  as the purge line of line 60. In the model the two differ only in where
  they come from (`Purges` or the tag dict).
- Order.PrintedInOrder and Order.WellFormedOutput: stated for well-formed
  trees and well-formed input. For other input the program aborts
  (`Failures`) or prints the tree it built; only nesting and root silence
  (`Emit.PrintoutNested`, `Emit.RootSilent`) are proved for every tree.

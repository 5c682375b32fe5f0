# bpipe: a verified model of the pipeline-script engine

This project models the engine behind `bpipe` scripts in the Open Genomics
Engine (`openge/src/util/bpipe.cpp`) and proves properties of that model. A
script declares named stages made of shell command templates, and global
variables. Its `run { ... }` block then composes references to those stages
with `+` (serial) and `[a, b]` (parallel). The engine does four things:

* It loads the script and strips its `/* */` and `//` comments (`BPipe::load`).
* It parses the text with a Spirit grammar (`BpipeParser`) into stages,
  globals and a binary run tree.
* It checks the run tree (`check`). This pass resolves every stage reference
  and substitutes `$NAME` and `${NAME}` in each exec line. It threads one
  variable map through the tree and chains `input` and `output` from one
  stage to the next.
* It executes the tree (`execute`), handing the resolved commands to
  `system()` and stopping at the first nonzero exit code.

Modules, one per part of the source:

* `Wrappers`: `Option`, used where the code has `npos`, a null pointer or
  `false`.
* `Text`: `isalnum`, `isspace`, the characters `ascii::char_` accepts, and
  `std::string::find`.
* `Comments`: the two comment loops of `BPipe::load`. `size_t` wrap-around
  and the clamping of `erase` are written out.
* `Substitution`: variable substitution in one exec line. It has the
  rescanning loop of the source (`Substitute`) and a one-pass meaning
  (`Expand`), which are proved equal.
* `Stages`: `StageReference::check`, both as a method (`CheckReference`) and
  as a function on values (`ResolveReference`).
* `Queues`: the run tree. `check`, `execute` and `print` are each a function
  plus a method that recurses as the virtual calls do.
* `Grammar` and `GrammarFacts`: the grammar as a recursive-descent parser
  with ordered choice, and its round-trip properties.
* `Driver`: global variables, the seeding of the map, `check` on the whole
  text, and the `BPipe` class.

Behaviour of the code that the model keeps:

* The block-comment loop searches for the first `/*` and the first `*/`
  independently, and erases `cend - cstart + 2` characters computed in
  `size_t`. A `*/` that ends more than one character before the first `/*`
  makes that count wrap around. The pass then erases everything from the
  `/*` to the end of the text (`StripBlocksWrapsToEnd`).
* A `*/` that ends exactly where the `/*` starts makes a pass erase nothing,
  and the loop then never ends. The model reports this as the `Hangs`
  outcome (`StripBlocksHangsOnTouchingMarkers`).
* Substitution rescans each command from its start after every replacement.
* `output` is refreshed from `input` before every exec line of a stage. At
  the end of the stage, `input` moves to `output` unless the stage forwards
  its input.
* A `Parallel` node checks and executes its children one after the other,
  exactly as a `Serial` node does. Both children share one map, and the
  right child is skipped once the left one has failed.
* Global assignments are `insert`ed, so the first assignment of a name wins.
  The seeded map gets `input` from the caller's file name only when that
  name is non-empty; the globals never overwrite it.
* `check` fails when text is left after the parse and the trailing skip.
  The run task it leaves behind is then the parsed one.

## Model

| member | source | states |
|---|---|---|
| Comments.SizeT | openge/src/util/bpipe.cpp:335 | a position difference in range is kept; a negative one wraps to itself plus 2^64, as unsigned `size_t` arithmetic does |
| Comments.BlockPassNeverGrows | openge/src/util/bpipe.cpp:331-335 | one pass of the block loop never lengthens the text, and a pass that keeps its length changes nothing |
| Comments.BlockPassBreaks | openge/src/util/bpipe.cpp:331-337 | the block loop breaks exactly when the text has no `/*` or has no `*/` |
| Comments.BlockPassErasesSpan | openge/src/util/bpipe.cpp:331-335 | when the first `*/` follows the first `/*`, a pass removes exactly that span, markers included, and the text shrinks |
| Comments.BlockPassWraps | openge/src/util/bpipe.cpp:331-335 | when the first `*/` ends well before the first `/*`, the wrapped count erases from `/*` to the end of the text |
| Comments.BlockPassStalls | openge/src/util/bpipe.cpp:331-335 | when the first `*/` ends where the first `/*` starts, a pass leaves the text unchanged |
| Comments.BlockPassStallsOnlyOnTouching | openge/src/util/bpipe.cpp:331-335 | a pass leaves the text unchanged if and only if the first `*/` ends exactly where the first `/*` starts |
| Comments.StripBlocks | openge/src/util/bpipe.cpp:330-338 | the block loop's outcome is no longer than its input; if it ends, no pass applies to its text, and if it hangs, the pass maps its text to itself |
| Comments.StripBlockComments | openge/src/util/bpipe.cpp:330-338 | the loop as written (find, find, erase, repeat) returns exactly `StripBlocks` of the text |
| Comments.StripBlocksHangsOnlyOnTouching | openge/src/util/bpipe.cpp:330-338 | the block loop hangs if and only if the text it is left with has its first `*/` ending where its first `/*` starts |
| Comments.StripBlocksHangsOnTouchingMarkers | openge/src/util/bpipe.cpp:330-338 | on `*//*` the block loop never ends |
| Comments.StripBlocksWrapsToEnd | openge/src/util/bpipe.cpp:330-338 | on `*/ a /* b */ c` the loop erases everything from the `/*` onwards, the ` c` after the comment included |
| Comments.LinePassErasesToNewline | openge/src/util/bpipe.cpp:342-346 | a line pass removes exactly the text from the first `//` up to, not including, the next newline: at least two characters and no newline |
| Comments.LinePassBreaks | openge/src/util/bpipe.cpp:342-348 | the line loop breaks exactly when no `//` has a newline anywhere after it |
| Comments.StripLines | openge/src/util/bpipe.cpp:341-349 | the line loop always ends; its result is no longer than the input, keeps every newline, and no pass applies to it |
| Comments.StripLineComments | openge/src/util/bpipe.cpp:341-349 | the loop as written returns exactly `StripLines` of the text |
| Comments.StripComments | openge/src/util/bpipe.cpp:329-349 | after both loops, no line pass applies to a finished text; a hung text is a fixed point of the block pass |
| Comments.StripScript | openge/src/util/bpipe.cpp:329-349 | running the two loops in order gives `StripComments` of the text; the line loop runs only if the block loop ends |
| Text.FindPair | openge/src/util/bpipe.cpp:331-332 | `find` of a two-character marker gives its first occurrence at or after the start, or none when no occurrence exists |
| Text.IndexOf | openge/src/util/bpipe.cpp:343 | `find` of a character gives its first occurrence at or after the start, or none when no occurrence exists |
| Substitution.NameEnd | openge/src/util/bpipe.cpp:152 | the name after `$` runs over variable-name characters and stops at the first other character or at the end |
| Substitution.ClosingBraceFound | openge/src/util/bpipe.cpp:155 | in a text whose `${` all close, the search for the closing `}` finds one |
| Substitution.PlainReference | openge/src/util/bpipe.cpp:151-153 | `$X` followed by a non-name character is a reference to X ending after X |
| Substitution.BracedReference | openge/src/util/bpipe.cpp:154-157 | `${X}` with no `}` in X is a reference to X ending after the `}` |
| Substitution.BraceFormsAgree | openge/src/util/bpipe.cpp:151-157 | `$X` and `${X}` expand alike, to X's value followed by the expanded rest, or fail when X is unbound |
| Substitution.ExpandPlain | openge/src/util/bpipe.cpp:145-147 | a template without `$` expands to itself |
| Substitution.ExpandRemovesDollars | openge/src/util/bpipe.cpp:159-165 | with `$`-free values, a successful expansion contains no `$` |
| Substitution.ExpandAfterPrefix | openge/src/util/bpipe.cpp:144-166 | expanding behind a `$`-free prefix copies the prefix and expands the rest |
| Substitution.ReplaceFirstReference | openge/src/util/bpipe.cpp:159-165 | replacing the first reference by its value keeps the expansion and the closed braces, and removes one `$` |
| Substitution.FewerDollars | openge/src/util/bpipe.cpp:164 | putting a `$`-free value in place of a reference lowers the number of `$` |
| Substitution.Substitute | openge/src/util/bpipe.cpp:141-166 | the rescanning loop returns the one-pass expansion: each reference replaced by its value, or failure at the first unbound name |
| Stages.FindStageFrom | openge/src/util/bpipe.cpp:122-126 | the lookup gives the first stage with the name, and fails only when no stage has it |
| Stages.RefreshOutput | openge/src/util/bpipe.cpp:137-139 | with `input` bound, `output` becomes `input.name`; without it the map is unchanged; no other key changes |
| Stages.AdvanceInput | openge/src/util/bpipe.cpp:172-173 | with `output` bound and no forwarding, `input` becomes `output`; otherwise the map is unchanged; no other key changes |
| Stages.RefreshOutputTwice | openge/src/util/bpipe.cpp:137-139 | refreshing `output` again before the next line gives the same map |
| Stages.ResolveLinesMeaning | openge/src/util/bpipe.cpp:133-169 | every line is expanded under the once-refreshed map; the commands are appended in order up to the first failing line; the loop succeeds exactly when all lines expand |
| Stages.ResolveLinesSucceedsIff | openge/src/util/bpipe.cpp:133-169 | the exec-line loop succeeds if and only if every line expands |
| Stages.ResolveReferenceMeaning | openge/src/util/bpipe.cpp:121-176 | an unknown name fails with the map and commands unchanged; otherwise the first stage of that name is used, and the check succeeds exactly when each line expands; on success the commands are the expansions in order and `input` is advanced |
| Stages.ChainingRule | openge/src/util/bpipe.cpp:133-173 | with `input` bound, a stage with lines sets `output` to `input.name`; `input` moves there unless the stage forwards it; no other variable changes |
| Stages.ResolveKeepsDollarFree | openge/src/util/bpipe.cpp:133-173 | with `$`-free values and name, the check keeps every value `$`-free and appends only `$`-free commands |
| Stages.PlainStageCommands | openge/src/util/bpipe.cpp:133-169 | a stage whose templates have no `$` resolves to exactly its templates |
| Stages.ResolveLinesStep | openge/src/util/bpipe.cpp:133-168 | one turn of the exec-line loop refreshes `output`, expands the first line and goes on with the rest, or stops on failure |
| Stages.CheckReference | openge/src/util/bpipe.cpp:121-176 | the two loops of `StageReference::check` compute exactly `ResolveReference`: the verdict, the map and the command list |
| Queues.Check | openge/src/util/bpipe.cpp:75-87 | checking a tree changes only the command lists of its references, never its shape or names |
| Queues.CheckIsLeftToRight | openge/src/util/bpipe.cpp:75-87 | whatever its nesting, a tree checks as its references do from left to right on one map, up to the first failure |
| Queues.ParallelChecksLikeSerial | openge/src/util/bpipe.cpp:75-87 | a `Parallel` node checks exactly as a `Serial` node over the same children |
| Queues.CheckShortCircuits | openge/src/util/bpipe.cpp:75-87 | when the left child fails, the node fails with the left child's map, and the right child is left untouched |
| Queues.CheckKeepsDollarFree | openge/src/util/bpipe.cpp:75-87 | with `$`-free names and values, a check keeps the map and every command `$`-free |
| Queues.UnresolvedIsDollarFree | openge/src/util/bpipe.cpp:268 | a tree as the parser builds it has `$`-free names and no commands |
| Queues.CheckQueue | openge/src/util/bpipe.cpp:60-107 | the virtual `check` calls compute exactly `Check` of the tree |
| Queues.RunCommandsMeaning | openge/src/util/bpipe.cpp:184-191 | the commands run are a prefix of the list that stops at the first nonzero exit; the run succeeds exactly when all of them exit 0 |
| Queues.RunCommandsAppend | openge/src/util/bpipe.cpp:185-186 | running two lists in turn is running their concatenation |
| Queues.ExecuteReference | openge/src/util/bpipe.cpp:178-192 | the loop of `StageReference::execute` runs exactly the commands `RunCommands` runs, with the same verdict |
| Queues.ExecuteRunsAllCommands | openge/src/util/bpipe.cpp:76-88 | executing a tree is one run of all its commands from left to right, stopping after the first nonzero exit |
| Queues.ParallelExecutesLikeSerial | openge/src/util/bpipe.cpp:76-88 | a `Parallel` node executes exactly as a `Serial` node |
| Queues.ExecuteQueue | openge/src/util/bpipe.cpp:60-107 | the virtual `execute` calls compute exactly `Execute` of the tree |
| Queues.ReadPrinted | openge/src/util/bpipe.cpp:77-106 | the printed form of a tree with printable names reads back as its shape, whatever follows it |
| Queues.PrintDeterminesSkeleton | openge/src/util/bpipe.cpp:77-106 | two trees with printable names that print alike have the same shape and names |
| Grammar.Skip | openge/src/util/bpipe.cpp:363 | the skipper stops at the first non-space at or after its start |
| Grammar.SkipSpaces | openge/src/util/bpipe.cpp:363 | everything the skipper passes over is a space |
| Grammar.QuotedBodyChars | openge/src/util/bpipe.cpp:247 | a quoted body holds only ASCII characters other than `"` |
| Grammar.ParseQuoted | openge/src/util/bpipe.cpp:247 | a quoted string that parses is non-empty and consumes text |
| Grammar.ParseUnquoted | openge/src/util/bpipe.cpp:248 | an unquoted string that parses is non-empty and consumes text; what it reads is stated by `GrammarFacts.UnquotedValue` |
| Grammar.ParseBlock | openge/src/util/bpipe.cpp:255 | a stage block that parses consumes text and ends inside it |
| Grammar.ParseGenerator | openge/src/util/bpipe.cpp:257-258 | a stage generator that parses consumes text and ends inside it |
| Grammar.ParseItem | openge/src/util/bpipe.cpp:259-274 | a top-level item that parses consumes text |
| Grammar.Items | openge/src/util/bpipe.cpp:274 | the item loop ends inside the text |
| Grammar.ParseSerial | openge/src/util/bpipe.cpp:269 | a serial queue that parses consumes text |
| Grammar.ParseParallel | openge/src/util/bpipe.cpp:270 | a parallel queue that parses consumes text |
| Grammar.ParseRun | openge/src/util/bpipe.cpp:272 | a run block that parses consumes text |
| Grammar.ParseFile | openge/src/util/bpipe.cpp:274 | a script that parses consumes text and ends inside it |
| GrammarFacts.NameReadsBack | openge/src/util/bpipe.cpp:248 | an alphanumeric name that nothing extends reads back as itself |
| GrammarFacts.QuotedReadsBack | openge/src/util/bpipe.cpp:247 | a quoted string reads back as exactly the characters between its quotes |
| GrammarFacts.NameTailValue | openge/src/util/bpipe.cpp:248 | from any index and any attribute read so far, the name stops where no item follows. Without a backslash it gains the letters and digits of the text it spans, with spaces dropped. After the last backslash it is the escaped character (`"` or `\`) followed by the letters and digits after it, because an escape assigns the whole attribute |
| GrammarFacts.UnquotedValue | openge/src/util/bpipe.cpp:248 | an unquoted string parses exactly where, after spaces, a letter, a digit, `\"` or `\\` stands; what it reads is what `NameTailValue` states, from the empty attribute |
| GrammarFacts.UnquotedDropsSpaces | openge/src/util/bpipe.cpp:248 | `a b` reads as the name `ab`, because the skipper runs between items |
| GrammarFacts.UnquotedEscapeRestarts | openge/src/util/bpipe.cpp:248 | `ab\"c` reads as the name `"c`, because the escape's action replaces the `ab` read before it |
| GrammarFacts.QuotedIsRaw | openge/src/util/bpipe.cpp:247 | what a quoted string yields is the raw text between two quotes, after spaces only; it contains no escapes |
| GrammarFacts.ReferenceRoundTrip | openge/src/util/bpipe.cpp:268-269 | a rendered name reads back as a reference without commands |
| GrammarFacts.ParallelRoundTrip | openge/src/util/bpipe.cpp:270 | a rendered bracketed queue reads back as the parallel node it renders |
| GrammarFacts.ElementRoundTrip | openge/src/util/bpipe.cpp:269 | a rendered element reads back as itself |
| GrammarFacts.QueueRoundTrip | openge/src/util/bpipe.cpp:271 | a rendered queue inside brackets reads back as the tree it renders |
| GrammarFacts.SerialPrefix | openge/src/util/bpipe.cpp:269 | a rendered serial chain is read element by element and folded to the left |
| GrammarFacts.SerialEnds | openge/src/util/bpipe.cpp:269 | a serial chain stops where no `+` follows |
| GrammarFacts.CommittedParallelRejects | openge/src/util/bpipe.cpp:269-271 | once a bracketed queue parses as the first member of a parallel queue, a `+` after it makes the enclosing bracket fail, both as a parallel queue and as an element; ordered choice does not go back to read that member as a serial queue |
| GrammarFacts.RunRejectsParallelThenPlus | openge/src/util/bpipe.cpp:269-272 | a run block whose queue starts with `[`, a parallel queue and `+` is rejected, whatever follows |
| GrammarFacts.NestedParallelExample | openge/src/util/bpipe.cpp:269-272 | `run{[[a,b]+c]}` does not parse |
| GrammarFacts.RunRead | openge/src/util/bpipe.cpp:272 | a rendered run block reads back as its tree |
| GrammarFacts.NoItemBeforeRun | openge/src/util/bpipe.cpp:274 | the item loop declares nothing at `run{` |
| GrammarFacts.ExecStatementRead | openge/src/util/bpipe.cpp:253 | a rendered `exec "..."` reads back as that exec line |
| GrammarFacts.StatementsRead | openge/src/util/bpipe.cpp:253-255 | rendered exec statements are read back and appended, in order |
| GrammarFacts.ForwardRead | openge/src/util/bpipe.cpp:255 | `forward input` is read back as the flag, and its absence as false |
| GrammarFacts.BlockRead | openge/src/util/bpipe.cpp:255 | a rendered block reads back as an unnamed stage with its lines and flag |
| GrammarFacts.StageItemRead | openge/src/util/bpipe.cpp:257-259 | a rendered stage definition reads back as that stage |
| GrammarFacts.AssignmentItemRead | openge/src/util/bpipe.cpp:260 | a rendered `name = "value"` reads back as a global assignment, not as a stage |
| GrammarFacts.StagesRead | openge/src/util/bpipe.cpp:259-274 | rendered stage definitions are declared in order |
| GrammarFacts.AssignmentsRead | openge/src/util/bpipe.cpp:260-274 | rendered global assignments are declared in order |
| GrammarFacts.DeclarationsRead | openge/src/util/bpipe.cpp:274 | rendered stages, then globals, then `run{`: the item loop declares them all and stops at the run block |
| GrammarFacts.ScriptRoundTrip | openge/src/util/bpipe.cpp:247-274 | every script of the grammar's shape reads back from its rendering, with all of the text consumed |
| GrammarFacts.FileRead | openge/src/util/bpipe.cpp:274 | items that declare a script's parts, followed by its run block, read back as the script |
| GrammarFacts.UnquotedDollarFree | openge/src/util/bpipe.cpp:248 | a name the grammar reads never contains `$` |
| GrammarFacts.ElementUnresolved | openge/src/util/bpipe.cpp:268-269 | an element the parser builds has `$`-free names and no commands |
| GrammarFacts.SerialUnresolved | openge/src/util/bpipe.cpp:269 | a serial queue the parser builds has `$`-free names and no commands |
| GrammarFacts.ParallelUnresolved | openge/src/util/bpipe.cpp:270 | a parallel queue the parser builds has `$`-free names and no commands |
| GrammarFacts.QueueUnresolved | openge/src/util/bpipe.cpp:271 | a queue the parser builds has `$`-free names and no commands |
| GrammarFacts.FileUnresolved | openge/src/util/bpipe.cpp:272-274 | the run task of a parsed script has `$`-free names and no commands |
| Driver.JoinLinesCounts | openge/src/util/bpipe.cpp:322-324 | the loaded text has one newline per line read, plus every character of every line |
| Driver.Globals | openge/src/util/bpipe.cpp:260 | the globals bind exactly the names the script assigns |
| Driver.GlobalsFirstWins | openge/src/util/bpipe.cpp:260 | a global's value is the value of its first assignment |
| Driver.DuplicateGlobalKeepsFirst | openge/src/util/bpipe.cpp:260 | a name assigned twice keeps the first value |
| Driver.GlobalsDollarFree | openge/src/util/bpipe.cpp:260 | `$`-free assigned values give `$`-free globals |
| Driver.InsertMissing | openge/src/util/bpipe.cpp:376 | `insert` adds the keys not yet bound, with their values, and keeps every bound key's value |
| Driver.SeedVarsMeaning | openge/src/util/bpipe.cpp:373-376 | a non-empty file name is bound to `input` whatever the globals say; an empty one leaves exactly the globals; every other name has its global value |
| Driver.SeedVarsDollarFree | openge/src/util/bpipe.cpp:373-376 | a `$`-free file name and globals seed a `$`-free map |
| Driver.CheckTextMeaning | openge/src/util/bpipe.cpp:354-381 | `check` succeeds exactly when the whole text parses, up to trailing space, and the run task checks on the seeded map; a parsed run task keeps its shape; a failed parse leaves no run task |
| Driver.LeftoverFails | openge/src/util/bpipe.cpp:365-371 | unparsed text makes `check` fail before any stage is resolved; the run task is the one parsed |
| Driver.RenderedScriptConsumed | openge/src/util/bpipe.cpp:363-368 | the rendering of a script of the grammar's shape parses back to that script and is used up |
| Driver.CheckRenderedScript | openge/src/util/bpipe.cpp:354-381 | for a script of the grammar's shape whose rendering is checked, `check` succeeds exactly when the run block's references all resolve, taken from left to right on the seeded map and stopping at the first failure; the run task left behind holds the references those resolutions give, in order |
| Driver.CheckParsed | openge/src/util/bpipe.cpp:372-379 | seeding the map and checking the run task as the tree runs it gives the verdict and run task of `CheckText` |
| Driver.BPipe.constructor | openge/src/util/bpipe.cpp:307-309 | a new object has no script text, no stages, no globals and no run task |
| Driver.BPipe.Load | openge/src/util/bpipe.cpp:311-352 | the lines are appended with their newlines and both comment loops run; the new text is what they leave, `finished` is false exactly when the block loop hangs, and no other field changes |
| Driver.BPipe.Check | openge/src/util/bpipe.cpp:354-381 | the verdict and run task are those of `CheckText` on the loaded text; the text is unchanged; the parser's stages and globals are those its items declare |
| Driver.BPipe.Print | openge/src/util/bpipe.cpp:383-386 | the output is the run task's printed form |
| Driver.BPipe.Execute | openge/src/util/bpipe.cpp:388-404 | the verdict and the commands handed to `system` are those of `Execute` on the run task |

## Left out

- File I/O in `load`: opening the file, `getline` and `exit(-1)` on failure. `Load` takes the lines read as a parameter.
- `system()`: it becomes a parameter `system: string -> int` that gives each command's exit code. `Execute` returns the commands it handed over, in order.
- Timestamps (`time` and `ctime`) and every diagnostic printed to `cerr`. `print` returns its text instead of writing it to `cerr`.
- Memory: pointers, `new`, and the parser object that is never freed.
- The Spirit machinery. The grammar is modelled as recursive descent with ordered choice, backtracking and the space skipper.
- `doc`, `msg` and `about`: these are parsed and then ignored, as in the code.
- The `stage_filter` rule and the stage's `filter` field: `stage_generator` never refers to the rule, so no script can reach it.
- The `forward_input` field: the stage's default constructor leaves it uninitialised, and its copy constructor does not copy it. The model keeps the flag as parsed. The lemmas about checks hold for either value.
- Concurrency: the code has none, because a `Parallel` node runs its children one after the other.
- openge/src/algorithms/file_writer.cpp and openge/src/util/sam_writer.h are not part of this model. They do not take part in the engine.
- Driver.BPipe.Check: requires a non-empty script text, and `Resolvable` (see `Driver.CheckText` below) when the text parses. On an empty text, the failed parse leaves the iterator at the end, and `check` then dereferences a null run task.
- Stages.CheckReference: requires `$`-free values and a `$`-free stage name, and every `${` to be closed. A `$` inside a substituted value is expanded again by the rescan, which can loop forever. An unclosed `${` reads past the end of the command. The grammar never produces a name with `$` (`GrammarFacts.UnquotedDollarFree`).
- Substitution.Substitute: requires the same conditions as `Stages.CheckReference`, for the same reasons.
- Driver.BPipe.Print: requires a run task. The code dereferences `run_task` without a test, so a call before a parse crashes.
- Driver.BPipe.Execute: requires a run task, for the same reason as `Driver.BPipe.Print`.
- Driver.CheckText: requires the same conditions, through `Resolvable`: closed `${` in every exec line, and no `$` in the global values or in the file name. These conditions cover every declared stage and every global, including those that no run task uses. They also cover lines that `check` never reaches. For example, in `exec "$missing ${oops"` the unbound `$missing` ends the check before the unclosed `${` is read.
- A `$` at the very end of a command: the code reads the byte after it. The model takes that byte to be the string's terminating NUL, which gives a reference with an empty name.
- Driver.BPipe.Load: requires the text to stay shorter than 2^64 characters, the range of `size_t`. When the block-comment loop hangs, the model reports it as `finished == false`. The code never returns in that case.
- Grammar.ParseBlock: the parser functions state only that they consume text. What they read is stated by the round-trip lemmas (`GrammarFacts.ScriptRoundTrip` and those it builds on). The same holds for Grammar.ParseGenerator, Grammar.ParseItem, Grammar.ParseSerial, Grammar.ParseParallel, Grammar.ParseRun and Grammar.ParseFile.
- Grammar.ParseUnquoted: its contract states only that it consumes text and gives a non-empty name. What it reads, on any input, is stated by `GrammarFacts.UnquotedValue`.
- Grammar.Items: its contract states only that the item loop ends inside the text. Its declarations are stated only for rendered scripts, by `GrammarFacts.DeclarationsRead`.
- The round trip covers scripts of one shape: alphanumeric names, non-empty quoted values, stages made of `exec` lines with an optional `forward input`, and no spaces or comments. Other scripts are parsed by the same functions, but no round trip is proved for them.

/**
 * The `BPipe` object: it loads the script text and strips its comments, parses it
 * with a fresh parser on every `check`, seeds the variable map from the caller's
 * file name and the script's global assignments, checks the run task, and then
 * prints or executes it.
 */
module Driver {
  import opened Wrappers
  import opened Substitution
  import opened Stages
  import opened Queues
  import opened Comments
  import opened Grammar
  import opened GrammarFacts

  // ---------------------------------------------------------------- loading

  /** The text `getline` lines add up to: every line followed by a newline. */
  function JoinLines(lines: seq<string>): string {
    if lines == [] then "" else JoinLines(lines[..|lines| - 1]) + lines[|lines| - 1] + "\n"
  }

  /** The loaded text holds one newline per line and every character of every line. */
  lemma {:induction false} JoinLinesCounts(lines: seq<string>)
    requires forall i | 0 <= i < |lines| :: '\n' !in lines[i]
    ensures multiset(JoinLines(lines))['\n'] == |lines|
    ensures |JoinLines(lines)| == |lines| + LinesLength(lines)
  {
    if lines != [] {
      var init := lines[..|lines| - 1];
      var last := lines[|lines| - 1];
      assert forall i | 0 <= i < |init| :: init[i] == lines[i];
      JoinLinesCounts(init);
      assert multiset(JoinLines(init) + last + "\n") == multiset(JoinLines(init)) + multiset(last) + multiset("\n");
      assert multiset(last)['\n'] == 0;
    }
  }

  lemma JoinLinesStep(lines: seq<string>, k: nat)
    requires k < |lines|
    ensures JoinLines(lines[..k + 1]) == JoinLines(lines[..k]) + (lines[k] + "\n")
  {
    assert lines[..k + 1][..k] == lines[..k];
  }

  function LinesLength(lines: seq<string>): nat {
    if lines == [] then 0 else LinesLength(lines[..|lines| - 1]) + |lines[|lines| - 1]|
  }

  // ---------------------------------------------------------------- global variables

  /** `global_vars`: each assignment is `insert`ed, so a name already present keeps its value. */
  function Globals(assignments: seq<(string, string)>): (g: Vars)
    ensures forall k :: k in g <==> exists i | 0 <= i < |assignments| :: assignments[i].0 == k
  {
    if assignments == [] then map[]
    else
      var g0 := Globals(assignments[..|assignments| - 1]);
      var a := assignments[|assignments| - 1];
      assert forall i | 0 <= i < |assignments| - 1 :: assignments[..|assignments| - 1][i] == assignments[i];
      if a.0 in g0 then g0 else g0[a.0 := a.1]
  }

  /** The value of a global is the one of its first assignment. */
  lemma {:induction false} GlobalsFirstWins(assignments: seq<(string, string)>, i: nat)
    requires i < |assignments|
    requires forall j | 0 <= j < i :: assignments[j].0 != assignments[i].0
    ensures assignments[i].0 in Globals(assignments)
    ensures Globals(assignments)[assignments[i].0] == assignments[i].1
    decreases |assignments|
  {
    var init := assignments[..|assignments| - 1];
    if i < |assignments| - 1 {
      assert init[i] == assignments[i];
      assert forall j | 0 <= j < i :: init[j] == assignments[j];
      GlobalsFirstWins(init, i);
    } else {
      var k := assignments[i].0;
      forall j | 0 <= j < |init| ensures init[j].0 != k {
        assert init[j] == assignments[j];
      }
    }
  }

  /** A global assigned twice keeps the value of its first assignment. */
  lemma DuplicateGlobalKeepsFirst(assignments: seq<(string, string)>, name: string, first: string, second: string)
    requires assignments == [(name, first), (name, second)]
    ensures Globals(assignments) == map[name := first]
  {
    GlobalsFirstWins(assignments, 0);
  }

  /** `vars.insert(first, last)` with another map's entries: keys already bound keep their value. */
  function InsertMissing(vars: Vars, extra: Vars): (r: Vars)
    ensures r.Keys == vars.Keys + extra.Keys
    ensures forall k | k in vars :: r[k] == vars[k]
    ensures forall k | k in extra && k !in vars :: r[k] == extra[k]
  {
    map k | k in vars.Keys + extra.Keys :: if k in vars then vars[k] else extra[k]
  }

  /** The map `check` starts from: `input` from the caller's file name when it is not empty, then the globals. */
  function SeedVars(inputFilename: string, globals: Vars): Vars {
    var vars: Vars := if inputFilename != "" then map["input" := inputFilename] else map[];
    InsertMissing(vars, globals)
  }

  /**
   * A non-empty file name is bound to `input`, whatever the globals say; an empty one
   * binds nothing, so `input` is bound only if the script assigns it. Every other name
   * has its global value.
   */
  lemma SeedVarsMeaning(inputFilename: string, globals: Vars)
    ensures var vars := SeedVars(inputFilename, globals);
      (inputFilename != "" ==> "input" in vars && vars["input"] == inputFilename) &&
      (inputFilename == "" ==> vars == globals) &&
      forall k | k != "input" :: (k in vars <==> k in globals) && (k in globals ==> vars[k] == globals[k])
  {
    var vars := SeedVars(inputFilename, globals);
    if inputFilename == "" {
      assert vars.Keys == globals.Keys;
    }
  }

  /** With `$`-free globals and file name, the seeded map has `$`-free values. */
  lemma SeedVarsDollarFree(inputFilename: string, globals: Vars)
    requires '$' !in inputFilename && DollarFreeValues(globals)
    ensures DollarFreeValues(SeedVars(inputFilename, globals))
  {
  }

  lemma GlobalsDollarFree(assignments: seq<(string, string)>)
    requires forall i | 0 <= i < |assignments| :: '$' !in assignments[i].1
    ensures DollarFreeValues(Globals(assignments))
    decreases |assignments|
  {
    if assignments != [] {
      var init := assignments[..|assignments| - 1];
      assert forall i | 0 <= i < |init| :: init[i] == assignments[i];
      GlobalsDollarFree(init);
    }
  }

  // ---------------------------------------------------------------- check

  /** What `check` demands of a parsed script to end: closed `${` and `$`-free values. */
  predicate Resolvable(sc: Script, inputFilename: string) {
    StagesClosed(sc.stages) && '$' !in inputFilename &&
    forall i | 0 <= i < |sc.assignments| :: '$' !in sc.assignments[i].1
  }

  /** The verdict of `check` and the run task it leaves behind (`None`: the null pointer). */
  datatype Verdict = Verdict(ok: bool, runTask: Option<StageQueue>)

  /**
   * `BPipe::check` on values. A parse that fails leaves the iterator at the start, which
   * is short of the end for any non-empty text; a parse that succeeds is followed by the
   * skipper, and then the text must be used up. Only then is the map seeded and the run
   * task checked.
   */
  function CheckText(text: string, inputFilename: string): Verdict
    requires text != []
    requires ParseFile(text).Some? ==> Resolvable(ParseFile(text).value.value, inputFilename)
  {
    match ParseFile(text)
    case None => Verdict(false, None)
    case Some(p) =>
      if Skip(text, p.end) != |text| then Verdict(false, Some(p.value.run))
      else
        var vars := SeedVars(inputFilename, Globals(p.value.assignments));
        var c := Check(p.value.stages, p.value.run, vars);
        Verdict(c.ok, Some(c.queue))
  }

  /**
   * `check` succeeds exactly when the whole text parses, up to trailing space, and the
   * run task checks on the seeded map; the run task it leaves is the parsed one with
   * the commands resolved.
   */
  lemma CheckTextMeaning(text: string, inputFilename: string)
    requires text != []
    requires ParseFile(text).Some? ==> Resolvable(ParseFile(text).value.value, inputFilename)
    ensures var r := CheckText(text, inputFilename);
      r.ok <==>
        ParseFile(text).Some? && Skip(text, ParseFile(text).value.end) == |text| &&
        var sc := ParseFile(text).value.value;
        Check(sc.stages, sc.run, SeedVars(inputFilename, Globals(sc.assignments))).ok
    ensures var r := CheckText(text, inputFilename);
      ParseFile(text).Some? ==> r.runTask.Some? && Skeleton(r.runTask.value) == Skeleton(ParseFile(text).value.value.run)
    ensures ParseFile(text).None? ==> CheckText(text, inputFilename).runTask.None?
  {
  }

  /** Text left over after the parse makes `check` fail before any stage is resolved. */
  lemma LeftoverFails(text: string, inputFilename: string)
    requires text != []
    requires ParseFile(text).Some? ==> Resolvable(ParseFile(text).value.value, inputFilename)
    requires ParseFile(text).None? || Skip(text, ParseFile(text).value.end) < |text|
    ensures !CheckText(text, inputFilename).ok
    ensures ParseFile(text).Some? ==> CheckText(text, inputFilename).runTask == Some(ParseFile(text).value.value.run)
  {
  }

  /** The whole rendering of a script of the grammar's shape is used up by the parse. */
  lemma RenderedScriptConsumed(sc: Script)
    requires PlainScript(sc)
    ensures ParseFile(ScriptText(sc)).Some?
    ensures Skip(ScriptText(sc), ParseFile(ScriptText(sc)).value.end) == |ScriptText(sc)|
    ensures ParseFile(ScriptText(sc)).value.value == sc
  {
    ScriptRoundTrip(sc);
  }

  /**
   * `check` on the rendering of a script of the grammar's shape: it succeeds exactly
   * when the references of the run block, taken from left to right on the seeded map,
   * all resolve, and the run task it leaves holds the references those resolutions
   * give, in the same order.
   */
  lemma CheckRenderedScript(sc: Script, inputFilename: string)
    requires PlainScript(sc) && Resolvable(sc, inputFilename)
    ensures ScriptText(sc) != [] && ParseFile(ScriptText(sc)).Some? && ParseFile(ScriptText(sc)).value.value == sc
    ensures var v := CheckText(ScriptText(sc), inputFilename);
      var l := CheckLeaves(sc.stages, Leaves(sc.run), SeedVars(inputFilename, Globals(sc.assignments)));
      v.ok == l.ok && v.runTask.Some? && Leaves(v.runTask.value) == l.leaves
  {
    RenderedScriptConsumed(sc);
    assert |ScriptText(sc)| > 0 by {
      assert |"run{" + Render(sc.run) + "}"| > 0;
    }
    CheckIsLeftToRight(sc.stages, sc.run, SeedVars(inputFilename, Globals(sc.assignments)));
  }

  /** The seeding done, the check of a fully parsed run task, as the tree runs it. */
  method CheckParsed(text: string, inputFilename: string, sc: Script, vars: Vars) returns (c: Checked)
    requires text != [] && ParseFile(text).Some? && sc == ParseFile(text).value.value
    requires Skip(text, ParseFile(text).value.end) == |text|
    requires Resolvable(sc, inputFilename)
    requires vars == (if inputFilename != "" then map["input" := inputFilename] else map[])
    ensures var v := CheckText(text, inputFilename);
      c.ok == v.ok && Some(c.queue) == v.runTask
  {
    var seeded := InsertMissing(vars, Globals(sc.assignments));
    assert seeded == SeedVars(inputFilename, Globals(sc.assignments));
    GlobalsDollarFree(sc.assignments);
    SeedVarsDollarFree(inputFilename, Globals(sc.assignments));
    FileUnresolved(text);
    UnresolvedIsDollarFree(sc.run);
    c := CheckQueue(sc.stages, sc.run, seeded);
  }

  /** The `BPipe` object: the script text and the parser state of the last `check`. */
  class BPipe {
    /** `script_text`. */
    var scriptText: string
    /** `parser->stages`, `parser->global_vars` and `parser->run_task`. */
    var stages: seq<Stage>
    var globals: Vars
    var runTask: Option<StageQueue>

    constructor()
      ensures scriptText == "" && stages == [] && globals == map[] && runTask.None?
    {
      scriptText := "";
      stages := [];
      globals := map[];
      runTask := None;
    }

    /**
     * `load` from the lines `getline` reads: each is appended with its newline, then both
     * comment loops run. `finished` is false when the block-comment loop never ends; the
     * text is then the one it spins on.
     */
    method Load(lines: seq<string>) returns (finished: bool)
      requires |scriptText| + |JoinLines(lines)| < SizeModulus
      modifies this
      ensures var r := StripComments(old(scriptText) + JoinLines(lines));
        finished == r.Done? && scriptText == r.text
      ensures stages == old(stages) && globals == old(globals) && runTask == old(runTask)
    {
      var k := 0;
      while k < |lines|
        invariant 0 <= k <= |lines|
        invariant scriptText == old(scriptText) + JoinLines(lines[..k])
        invariant stages == old(stages) && globals == old(globals) && runTask == old(runTask)
      {
        JoinLinesStep(lines, k);
        scriptText := scriptText + (lines[k] + "\n");
        k := k + 1;
      }
      assert lines[..k] == lines;
      var r := StripScript(scriptText);
      scriptText := r.text;
      finished := r.Done?;
    }

    /**
     * `check`: a fresh parse of the text, the leftover test, the seeding of the map and the
     * check of the run task. The parser's declarations are kept for `print` and `execute`.
     */
    method Check(inputFilename: string) returns (ok: bool)
      requires scriptText != []
      requires ParseFile(scriptText).Some? ==> Resolvable(ParseFile(scriptText).value.value, inputFilename)
      modifies this
      ensures var v := CheckText(old(scriptText), inputFilename);
        ok == v.ok && runTask == v.runTask
      ensures scriptText == old(scriptText)
      ensures var items := Items(scriptText, 0, Declarations([], [])).value;
        stages == items.stages && globals == Globals(items.assignments)
    {
      var text := scriptText;
      var items := Items(text, 0, Declarations([], [])).value;
      stages := items.stages;
      globals := Globals(items.assignments);
      var parsed := ParseFile(text);
      if parsed.None? {
        runTask := None;
        return false;
      }
      var sc := parsed.value.value;
      runTask := Some(sc.run);
      if Skip(text, parsed.value.end) != |text| {
        return false;
      }
      var vars: Vars := map[];
      if inputFilename != "" {
        vars := vars["input" := inputFilename];
      }
      var c := CheckParsed(text, inputFilename, sc, vars);
      runTask := Some(c.queue);
      ok := c.ok;
    }

    /** `print`: the run task's printed form. */
    method Print() returns (out: string)
      requires runTask.Some?
      ensures out == Queues.Print(runTask.value)
    {
      out := Queues.Print(runTask.value);
    }

    /** `execute`: the run task's execution, with `system` as the exit-code oracle. */
    method Execute(system: string -> int) returns (r: Executed)
      requires runTask.Some?
      ensures r == Queues.Execute(runTask.value, system)
    {
      r := ExecuteQueue(runTask.value, system);
    }
  }
}

/**
 * Stage lookup and resolution (`StageReference::check`): find the stage a reference
 * names, refresh `output` from `input`, substitute the variables of every exec line,
 * append the resolved commands and advance `input` to `output` for the next stage.
 */
module Stages {
  import opened Wrappers
  import opened Substitution

  /** A declared stage: its name, its exec templates in order, and whether it forwards its input. */
  datatype Stage = Stage(name: string, execLines: seq<string>, forwardInput: bool)

  /** Every exec template of every stage closes its `${`. */
  predicate StagesClosed(stages: seq<Stage>) {
    forall i | 0 <= i < |stages| :: LinesClosed(stages[i].execLines)
  }

  predicate LinesClosed(lines: seq<string>) {
    forall j | 0 <= j < |lines| :: BracesClosed(lines[j])
  }

  /** The index of the first stage at or after `from` called `name`. */
  function FindStageFrom(stages: seq<Stage>, name: string, from: nat): (r: Option<nat>)
    requires from <= |stages|
    decreases |stages| - from
    ensures r.Some? ==> from <= r.value < |stages| && stages[r.value].name == name
    ensures forall j | from <= j < |stages| && (r.None? || j < r.value) :: stages[j].name != name
  {
    if from == |stages| then None
    else if stages[from].name == name then Some(from)
    else FindStageFrom(stages, name, from + 1)
  }

  function FindStage(stages: seq<Stage>, name: string): Option<nat> {
    FindStageFrom(stages, name, 0)
  }

  /** Before each exec line: when `input` is bound, `output` becomes `input.name`. */
  function RefreshOutput(vars: Vars, name: string): (r: Vars)
    ensures "input" in vars ==> "output" in r && r["output"] == vars["input"] + "." + name
    ensures "input" !in vars ==> r == vars
    ensures forall k | k != "output" :: (k in r <==> k in vars) && (k in vars ==> r[k] == vars[k])
  {
    if "input" in vars then vars["output" := vars["input"] + "." + name] else vars
  }

  /** After the stage: unless it forwards its input, `input` becomes `output` when that is bound. */
  function AdvanceInput(vars: Vars, forwardInput: bool): (r: Vars)
    ensures "output" in vars && !forwardInput ==> "input" in r && r["input"] == vars["output"]
    ensures forwardInput || "output" !in vars ==> r == vars
    ensures forall k | k != "input" :: (k in r <==> k in vars) && (k in vars ==> r[k] == vars[k])
  {
    if "output" in vars && !forwardInput then vars["input" := vars["output"]] else vars
  }

  /** What a check leaves behind: its verdict, the variable map and the command list. */
  datatype Resolution = Resolution(ok: bool, vars: Vars, commands: seq<string>)

  /** The exec-line loop: refresh `output`, expand the line, append it; stop at the first failure. */
  function ResolveLines(lines: seq<string>, name: string, vars: Vars, commands: seq<string>): Resolution
    requires LinesClosed(lines)
    decreases |lines|
  {
    if lines == [] then Resolution(true, vars, commands)
    else
      var v := RefreshOutput(vars, name);
      match Expand(lines[0], v)
      case None => Resolution(false, v, commands)
      case Some(c) => ResolveLines(lines[1..], name, v, commands + [c])
  }

  /** `StageReference::check` on values: the map and the command list are threaded in and out. */
  function ResolveReference(stages: seq<Stage>, name: string, vars: Vars, commands: seq<string>): Resolution
    requires StagesClosed(stages)
  {
    match FindStage(stages, name)
    case None => Resolution(false, vars, commands)
    case Some(i) =>
      var r := ResolveLines(stages[i].execLines, name, vars, commands);
      if r.ok then Resolution(true, AdvanceInput(r.vars, stages[i].forwardInput), r.commands) else r
  }

  lemma RefreshOutputTwice(vars: Vars, name: string)
    ensures RefreshOutput(RefreshOutput(vars, name), name) == RefreshOutput(vars, name)
  {
  }

  /**
   * Every exec line of a non-empty list is expanded under the same map, `vars` with
   * `output` refreshed once; the commands are appended in order up to the first line
   * that fails, and the loop succeeds exactly when every line expands.
   */
  lemma {:induction false} ResolveLinesMeaning(lines: seq<string>, name: string, vars: Vars, commands: seq<string>)
    requires lines != [] && LinesClosed(lines)
    ensures var v := RefreshOutput(vars, name);
      var r := ResolveLines(lines, name, vars, commands);
      r.vars == v && |commands| <= |r.commands| <= |commands| + |lines| &&
      r.commands[..|commands|] == commands &&
      (forall j | 0 <= j < |r.commands| - |commands| :: Expand(lines[j], v) == Some(r.commands[|commands| + j])) &&
      (r.ok <==> |r.commands| == |commands| + |lines|) &&
      (!r.ok ==> Expand(lines[|r.commands| - |commands|], v).None?)
    decreases |lines|
  {
    var v := RefreshOutput(vars, name);
    var r := ResolveLines(lines, name, vars, commands);
    match Expand(lines[0], v)
    case None =>
    case Some(c) =>
      var tail := lines[1..];
      assert LinesClosed(tail) by {
        forall j | 0 <= j < |tail| ensures BracesClosed(tail[j]) {
          assert tail[j] == lines[j + 1];
        }
      }
      if tail == [] {
        assert lines == [lines[0]];
      } else {
        ResolveLinesMeaning(tail, name, v, commands + [c]);
        RefreshOutputTwice(vars, name);
        var cs := commands + [c];
        assert r == ResolveLines(tail, name, v, cs);
        assert r.commands[..|cs|] == cs;
        assert r.commands[..|commands|] == cs[..|commands|];
        forall j | 0 <= j < |r.commands| - |commands|
          ensures Expand(lines[j], v) == Some(r.commands[|commands| + j])
        {
          if j == 0 {
            assert r.commands[|commands|] == cs[|commands|];
          } else {
            assert lines[j] == tail[j - 1];
          }
        }
        if !r.ok {
          assert lines[|r.commands| - |commands|] == tail[|r.commands| - |cs|];
        }
      }
  }

  /** A loop that succeeds expanded every line. */
  lemma ResolveLinesSucceedsIff(lines: seq<string>, name: string, vars: Vars, commands: seq<string>)
    requires lines != [] && LinesClosed(lines)
    ensures ResolveLines(lines, name, vars, commands).ok <==>
      forall j | 0 <= j < |lines| :: Expand(lines[j], RefreshOutput(vars, name)).Some?
  {
    ResolveLinesMeaning(lines, name, vars, commands);
  }

  /**
   * The whole of `check` for one reference. An unknown name fails and changes nothing.
   * Otherwise the first stage of that name is used: each of its lines is expanded under
   * the refreshed map, the results are appended in order, and the check succeeds exactly
   * when every line expands; on success `input` is then advanced.
   */
  lemma ResolveReferenceMeaning(stages: seq<Stage>, name: string, vars: Vars, commands: seq<string>)
    requires StagesClosed(stages)
    ensures var r := ResolveReference(stages, name, vars, commands);
      match FindStage(stages, name)
      case None =>
        (forall j | 0 <= j < |stages| :: stages[j].name != name) && r == Resolution(false, vars, commands)
      case Some(i) =>
        var st := stages[i];
        var v := if st.execLines == [] then vars else RefreshOutput(vars, name);
        st.name == name && (forall j | 0 <= j < i :: stages[j].name != name) &&
        |commands| <= |r.commands| && r.commands[..|commands|] == commands &&
        (r.ok <==> forall j | 0 <= j < |st.execLines| :: Expand(st.execLines[j], v).Some?) &&
        (r.ok ==> |r.commands| == |commands| + |st.execLines| &&
                  (forall j | 0 <= j < |st.execLines| :: Expand(st.execLines[j], v) == Some(r.commands[|commands| + j])) &&
                  r.vars == AdvanceInput(v, st.forwardInput)) &&
        (!r.ok ==> r.vars == v)
  {
    match FindStage(stages, name)
    case None =>
    case Some(i) =>
      var st := stages[i];
      assert LinesClosed(st.execLines);
      if st.execLines != [] {
        ResolveLinesMeaning(st.execLines, name, vars, commands);
        ResolveLinesSucceedsIff(st.execLines, name, vars, commands);
      }
  }

  /**
   * The chaining rule: with `input` bound, a stage with exec lines sets `output` to
   * `input.name`, moves `input` there unless it forwards its input (then `input` stays),
   * and touches no other variable.
   */
  lemma ChainingRule(stages: seq<Stage>, name: string, vars: Vars, commands: seq<string>)
    requires StagesClosed(stages)
    requires "input" in vars
    requires FindStage(stages, name).Some? && stages[FindStage(stages, name).value].execLines != []
    requires ResolveReference(stages, name, vars, commands).ok
    ensures var r := ResolveReference(stages, name, vars, commands);
      var st := stages[FindStage(stages, name).value];
      "output" in r.vars && r.vars["output"] == vars["input"] + "." + name &&
      "input" in r.vars && r.vars["input"] == (if st.forwardInput then vars["input"] else vars["input"] + "." + name) &&
      forall k | k != "input" && k != "output" :: (k in r.vars <==> k in vars) && (k in vars ==> r.vars[k] == vars[k])
  {
    ResolveReferenceMeaning(stages, name, vars, commands);
  }

  /**
   * With `$`-free values and a `$`-free stage name, a check keeps every value `$`-free
   * and appends only `$`-free commands.
   */
  lemma ResolveKeepsDollarFree(stages: seq<Stage>, name: string, vars: Vars, commands: seq<string>)
    requires StagesClosed(stages) && DollarFreeValues(vars) && '$' !in name
    ensures var r := ResolveReference(stages, name, vars, commands);
      DollarFreeValues(r.vars) &&
      forall j | |commands| <= j < |r.commands| :: '$' !in r.commands[j]
  {
    ResolveReferenceMeaning(stages, name, vars, commands);
    var r := ResolveReference(stages, name, vars, commands);
    match FindStage(stages, name)
    case None =>
    case Some(i) =>
      var st := stages[i];
      var v := if st.execLines == [] then vars else RefreshOutput(vars, name);
      assert DollarFreeValues(v) by {
        if "input" in vars && st.execLines != [] {
          assert v["output"] == vars["input"] + "." + name;
          assert '$' !in vars["input"];
        }
      }
      if st.execLines != [] {
        ResolveLinesMeaning(st.execLines, name, vars, commands);
        forall j | |commands| <= j < |r.commands| ensures '$' !in r.commands[j] {
          var line := st.execLines[j - |commands|];
          assert BracesClosed(line);
          ExpandRemovesDollars(line, v);
        }
      }
  }

  /** A stage whose templates hold no `$` resolves to exactly its templates. */
  lemma PlainStageCommands(stages: seq<Stage>, name: string, vars: Vars, commands: seq<string>)
    requires StagesClosed(stages) && FindStage(stages, name).Some?
    requires var st := stages[FindStage(stages, name).value];
      forall j | 0 <= j < |st.execLines| :: '$' !in st.execLines[j]
    ensures var r := ResolveReference(stages, name, vars, commands);
      r.ok && r.commands == commands + stages[FindStage(stages, name).value].execLines
  {
    ResolveReferenceMeaning(stages, name, vars, commands);
    var st := stages[FindStage(stages, name).value];
    var v := if st.execLines == [] then vars else RefreshOutput(vars, name);
    forall j | 0 <= j < |st.execLines| ensures Expand(st.execLines[j], v) == Some(st.execLines[j]) {
      ExpandPlain(st.execLines[j], v);
    }
    var r := ResolveReference(stages, name, vars, commands);
    assert r.commands == r.commands[..|commands|] + r.commands[|commands|..];
  }

  /** One turn of the exec-line loop, with the rest of the lines still closed. */
  lemma ResolveLinesStep(lines: seq<string>, name: string, vars: Vars, commands: seq<string>)
    requires lines != [] && LinesClosed(lines)
    ensures LinesClosed(lines[1..]) && BracesClosed(lines[0])
    ensures var v := RefreshOutput(vars, name);
      ResolveLines(lines, name, vars, commands) ==
        match Expand(lines[0], v)
        case None => Resolution(false, v, commands)
        case Some(c) => ResolveLines(lines[1..], name, v, commands + [c])
  {
    assert BracesClosed(lines[0]);
    forall j | 0 <= j < |lines[1..]| ensures BracesClosed(lines[1..][j]) {
      assert lines[1..][j] == lines[j + 1];
    }
  }

  /**
   * `StageReference::check`: a first loop looks the stage up, a second one resolves its
   * exec lines one after the other with the rescanning substitution of each.
   */
  method CheckReference(stages: seq<Stage>, name: string, vars: Vars, commands: seq<string>)
    returns (ok: bool, varsOut: Vars, commandsOut: seq<string>)
    requires StagesClosed(stages) && DollarFreeValues(vars) && '$' !in name
    ensures Resolution(ok, varsOut, commandsOut) == ResolveReference(stages, name, vars, commands)
  {
    var found: Option<nat> := None;
    var i := 0;
    while i < |stages|
      invariant 0 <= i <= |stages|
      invariant forall j | 0 <= j < i :: stages[j].name != name
    {
      if stages[i].name == name {
        found := Some(i);
        break;
      }
      i := i + 1;
    }
    if found.None? {
      return false, vars, commands;
    }
    var st := stages[found.value];
    assert FindStage(stages, name) == found;
    assert LinesClosed(st.execLines);
    var v := vars;
    var cs := commands;
    var k := 0;
    while k < |st.execLines|
      invariant 0 <= k <= |st.execLines|
      invariant DollarFreeValues(v)
      invariant LinesClosed(st.execLines[k..])
      invariant ResolveLines(st.execLines[k..], name, v, cs) == ResolveLines(st.execLines, name, vars, commands)
    {
      var rest := st.execLines[k..];
      ResolveLinesStep(rest, name, v, cs);
      var line := rest[0];
      if "input" in v {
        assert '$' !in v["input"];
        v := v["output" := v["input"] + "." + name];
      }
      var c := Substitute(line, v);
      if c.None? {
        return false, v, cs;
      }
      cs := cs + [c.value];
      assert rest[1..] == st.execLines[k + 1..];
      k := k + 1;
    }
    assert st.execLines[k..] == [];
    if "output" in v && !st.forwardInput {
      v := v["input" := v["output"]];
    }
    return true, v, cs;
  }
}

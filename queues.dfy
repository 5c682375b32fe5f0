/**
 * The run tree (`StageQueue` and its subclasses): references to stages composed by
 * `Serial` and `Parallel` nodes. Both kinds of node check their left child and then
 * their right child on one shared variable map, and execute left then right, each
 * time skipping the right child once the left one has failed.
 */
module Queues {
  import opened Wrappers
  import opened Substitution
  import opened Stages

  /** A reference carries the commands its check resolved so far (`StageReference::commands`). */
  datatype StageQueue =
    | Ref(name: string, commands: seq<string>)
    | Serial(q1: StageQueue, q2: StageQueue)
    | Parallel(q1: StageQueue, q2: StageQueue)

  /** The tree with every command list emptied: what the script text determines. */
  function Skeleton(q: StageQueue): StageQueue {
    match q
    case Ref(n, _) => Ref(n, [])
    case Serial(a, b) => Serial(Skeleton(a), Skeleton(b))
    case Parallel(a, b) => Parallel(Skeleton(a), Skeleton(b))
  }

  /** A reference as a leaf of the tree: its name and its commands. */
  datatype Leaf = Leaf(name: string, commands: seq<string>)

  /** The references of the tree from left to right. */
  function Leaves(q: StageQueue): seq<Leaf> {
    match q
    case Ref(n, cs) => [Leaf(n, cs)]
    case Serial(a, b) => Leaves(a) + Leaves(b)
    case Parallel(a, b) => Leaves(a) + Leaves(b)
  }

  /** Every command of every reference, from left to right. */
  function AllCommands(q: StageQueue): seq<string> {
    match q
    case Ref(_, cs) => cs
    case Serial(a, b) => AllCommands(a) + AllCommands(b)
    case Parallel(a, b) => AllCommands(a) + AllCommands(b)
  }

  predicate NamesDollarFree(q: StageQueue) {
    forall i | 0 <= i < |Leaves(q)| :: '$' !in Leaves(q)[i].name
  }

  predicate CommandsDollarFree(q: StageQueue) {
    forall i | 0 <= i < |Leaves(q)| :: forall j | 0 <= j < |Leaves(q)[i].commands| :: '$' !in Leaves(q)[i].commands[j]
  }

  /** The verdict of a check, the map it leaves and the tree with the resolved commands. */
  datatype Checked = Checked(ok: bool, vars: Vars, queue: StageQueue)

  /** `check` over the tree. */
  function Check(stages: seq<Stage>, q: StageQueue, vars: Vars): (r: Checked)
    requires StagesClosed(stages)
    ensures Skeleton(r.queue) == Skeleton(q)
  {
    match q
    case Ref(n, cs) =>
      var res := ResolveReference(stages, n, vars, cs);
      Checked(res.ok, res.vars, Ref(n, res.commands))
    case Serial(a, b) =>
      var c1 := Check(stages, a, vars);
      if !c1.ok then Checked(false, c1.vars, Serial(c1.queue, b))
      else
        var c2 := Check(stages, b, c1.vars);
        Checked(c2.ok, c2.vars, Serial(c1.queue, c2.queue))
    case Parallel(a, b) =>
      var c1 := Check(stages, a, vars);
      if !c1.ok then Checked(false, c1.vars, Parallel(c1.queue, b))
      else
        var c2 := Check(stages, b, c1.vars);
        Checked(c2.ok, c2.vars, Parallel(c1.queue, c2.queue))
  }

  /** The verdict, the map and the leaves of a left-to-right check of a list of references. */
  datatype LeavesChecked = LeavesChecked(ok: bool, vars: Vars, leaves: seq<Leaf>)

  /**
   * Reference definition: check the references one after the other on one map and
   * stop at the first that fails, leaving the references after it untouched.
   */
  function CheckLeaves(stages: seq<Stage>, ls: seq<Leaf>, vars: Vars): (r: LeavesChecked)
    requires StagesClosed(stages)
    ensures |r.leaves| == |ls|
    ensures forall i | 0 <= i < |ls| :: r.leaves[i].name == ls[i].name
  {
    if ls == [] then LeavesChecked(true, vars, [])
    else
      var res := ResolveReference(stages, ls[0].name, vars, ls[0].commands);
      if !res.ok then LeavesChecked(false, res.vars, [Leaf(ls[0].name, res.commands)] + ls[1..])
      else
        var rest := CheckLeaves(stages, ls[1..], res.vars);
        LeavesChecked(rest.ok, rest.vars, [Leaf(ls[0].name, res.commands)] + rest.leaves)
  }

  /** Checking two lists one after the other is checking their concatenation. */
  lemma {:induction false} CheckLeavesAppend(stages: seq<Stage>, a: seq<Leaf>, b: seq<Leaf>, vars: Vars)
    requires StagesClosed(stages)
    ensures var ra := CheckLeaves(stages, a, vars);
      CheckLeaves(stages, a + b, vars) ==
        if !ra.ok then LeavesChecked(false, ra.vars, ra.leaves + b)
        else
          var rb := CheckLeaves(stages, b, ra.vars);
          LeavesChecked(rb.ok, rb.vars, ra.leaves + rb.leaves)
    decreases |a|
  {
    if a == [] {
      assert a + b == b;
    } else {
      var res := ResolveReference(stages, a[0].name, vars, a[0].commands);
      CheckLeavesCons(stages, a, b, vars);
      if res.ok {
        CheckLeavesAppend(stages, a[1..], b, res.vars);
        CheckLeavesAppendOk(stages, a, b, vars);
      }
    }
  }

  lemma AppendAssociative<T>(x: seq<T>, y: seq<T>, z: seq<T>)
    ensures x + (y + z) == (x + y) + z
  {
  }

  /** The first step of checking `a + b` for a non-empty `a`. */
  lemma CheckLeavesCons(stages: seq<Stage>, a: seq<Leaf>, b: seq<Leaf>, vars: Vars)
    requires StagesClosed(stages) && a != []
    ensures var res := ResolveReference(stages, a[0].name, vars, a[0].commands);
      var l := Leaf(a[0].name, res.commands);
      CheckLeaves(stages, a + b, vars) ==
        if !res.ok then LeavesChecked(false, res.vars, [l] + (a[1..] + b))
        else
          var rest := CheckLeaves(stages, a[1..] + b, res.vars);
          LeavesChecked(rest.ok, rest.vars, [l] + rest.leaves)
  {
    assert (a + b)[0] == a[0];
    assert (a + b)[1..] == a[1..] + b;
  }

  lemma CheckLeavesAppendOk(stages: seq<Stage>, a: seq<Leaf>, b: seq<Leaf>, vars: Vars)
    requires StagesClosed(stages) && a != []
    requires ResolveReference(stages, a[0].name, vars, a[0].commands).ok
    requires var res := ResolveReference(stages, a[0].name, vars, a[0].commands);
      var r1 := CheckLeaves(stages, a[1..], res.vars);
      CheckLeaves(stages, a[1..] + b, res.vars) ==
        if !r1.ok then LeavesChecked(false, r1.vars, r1.leaves + b)
        else
          var rb := CheckLeaves(stages, b, r1.vars);
          LeavesChecked(rb.ok, rb.vars, r1.leaves + rb.leaves)
    ensures var res := ResolveReference(stages, a[0].name, vars, a[0].commands);
      var l := Leaf(a[0].name, res.commands);
      var rest := CheckLeaves(stages, a[1..] + b, res.vars);
      var ra := CheckLeaves(stages, a, vars);
      LeavesChecked(rest.ok, rest.vars, [l] + rest.leaves) ==
        if !ra.ok then LeavesChecked(false, ra.vars, ra.leaves + b)
        else
          var rb := CheckLeaves(stages, b, ra.vars);
          LeavesChecked(rb.ok, rb.vars, ra.leaves + rb.leaves)
  {
    var res := ResolveReference(stages, a[0].name, vars, a[0].commands);
    var l := Leaf(a[0].name, res.commands);
    var r1 := CheckLeaves(stages, a[1..], res.vars);
    if r1.ok {
      var rb := CheckLeaves(stages, b, r1.vars);
      AppendAssociative([l], r1.leaves, rb.leaves);
    } else {
      AppendAssociative([l], r1.leaves, b);
    }
  }

  /**
   * Whatever its nesting of `Serial` and `Parallel` nodes, a tree checks exactly as its
   * references do from left to right on one shared map, up to the first failure.
   */
  lemma {:induction false} CheckIsLeftToRight(stages: seq<Stage>, q: StageQueue, vars: Vars)
    requires StagesClosed(stages)
    ensures var r := Check(stages, q, vars);
      var l := CheckLeaves(stages, Leaves(q), vars);
      r.ok == l.ok && r.vars == l.vars && Leaves(r.queue) == l.leaves
  {
    match q
    case Ref(n, cs) =>
      assert Leaves(q)[1..] == [];
    case Serial(a, b) =>
      CheckIsLeftToRight(stages, a, vars);
      CheckLeavesAppend(stages, Leaves(a), Leaves(b), vars);
      var c1 := Check(stages, a, vars);
      if c1.ok {
        CheckIsLeftToRight(stages, b, c1.vars);
      }
    case Parallel(a, b) =>
      CheckIsLeftToRight(stages, a, vars);
      CheckLeavesAppend(stages, Leaves(a), Leaves(b), vars);
      var c1 := Check(stages, a, vars);
      if c1.ok {
        CheckIsLeftToRight(stages, b, c1.vars);
      }
  }

  /** A `Parallel` node checks exactly as a `Serial` node over the same children. */
  lemma ParallelChecksLikeSerial(stages: seq<Stage>, a: StageQueue, b: StageQueue, vars: Vars)
    requires StagesClosed(stages)
    ensures var p := Check(stages, Parallel(a, b), vars);
      var s := Check(stages, Serial(a, b), vars);
      p.ok == s.ok && p.vars == s.vars && p.queue == Parallel(s.queue.q1, s.queue.q2)
  {
  }

  /** When the left child fails, the right child is neither checked nor changed. */
  lemma CheckShortCircuits(stages: seq<Stage>, q: StageQueue, vars: Vars)
    requires StagesClosed(stages) && !q.Ref?
    requires !Check(stages, q.q1, vars).ok
    ensures var c1 := Check(stages, q.q1, vars);
      var r := Check(stages, q, vars);
      !r.ok && r.vars == c1.vars && r.queue.q1 == c1.queue && r.queue.q2 == q.q2
  {
  }

  lemma LeavesApart(a: StageQueue, b: StageQueue, i: nat)
    requires i < |Leaves(a)| + |Leaves(b)|
    ensures (Leaves(a) + Leaves(b))[i] == if i < |Leaves(a)| then Leaves(a)[i] else Leaves(b)[i - |Leaves(a)|]
  {
  }

  /** With `$`-free names and values, a check keeps the map and every command `$`-free. */
  lemma {:induction false} CheckKeepsDollarFree(stages: seq<Stage>, q: StageQueue, vars: Vars)
    requires StagesClosed(stages) && DollarFreeValues(vars)
    requires NamesDollarFree(q) && CommandsDollarFree(q)
    ensures var r := Check(stages, q, vars);
      DollarFreeValues(r.vars) && NamesDollarFree(r.queue) && CommandsDollarFree(r.queue)
  {
    var r := Check(stages, q, vars);
    match q
    case Ref(n, cs) =>
      assert Leaves(q)[0] == Leaf(n, cs);
      assert '$' !in n;
      ResolveKeepsDollarFree(stages, n, vars, cs);
      var res := ResolveReference(stages, n, vars, cs);
      ResolveReferenceMeaning(stages, n, vars, cs);
      assert res.commands[..|cs|] == cs;
      forall j | 0 <= j < |res.commands| ensures '$' !in res.commands[j] {
        if j < |cs| {
          assert res.commands[j] == cs[j];
        }
      }
      assert Leaves(r.queue) == [Leaf(n, res.commands)];
    case Serial(a, b) =>
      DollarFreeChildren(q);
      CheckKeepsDollarFree(stages, a, vars);
      var c1 := Check(stages, a, vars);
      if c1.ok {
        CheckKeepsDollarFree(stages, b, c1.vars);
      }
      DollarFreeParent(r.queue);
    case Parallel(a, b) =>
      DollarFreeChildren(q);
      CheckKeepsDollarFree(stages, a, vars);
      var c1 := Check(stages, a, vars);
      if c1.ok {
        CheckKeepsDollarFree(stages, b, c1.vars);
      }
      DollarFreeParent(r.queue);
  }

  lemma DollarFreeChildren(q: StageQueue)
    requires !q.Ref? && NamesDollarFree(q) && CommandsDollarFree(q)
    ensures NamesDollarFree(q.q1) && CommandsDollarFree(q.q1)
    ensures NamesDollarFree(q.q2) && CommandsDollarFree(q.q2)
  {
    assert Leaves(q) == Leaves(q.q1) + Leaves(q.q2);
    forall i | 0 <= i < |Leaves(q.q1)| ensures Leaves(q.q1)[i] == Leaves(q)[i] {}
    forall i | 0 <= i < |Leaves(q.q2)| ensures Leaves(q.q2)[i] == Leaves(q)[|Leaves(q.q1)| + i] {}
  }

  lemma DollarFreeParent(q: StageQueue)
    requires !q.Ref?
    requires NamesDollarFree(q.q1) && CommandsDollarFree(q.q1)
    requires NamesDollarFree(q.q2) && CommandsDollarFree(q.q2)
    ensures NamesDollarFree(q) && CommandsDollarFree(q)
  {
    assert Leaves(q) == Leaves(q.q1) + Leaves(q.q2);
    forall i | 0 <= i < |Leaves(q)|
      ensures Leaves(q)[i] == if i < |Leaves(q.q1)| then Leaves(q.q1)[i] else Leaves(q.q2)[i - |Leaves(q.q1)|]
    {
      LeavesApart(q.q1, q.q2, i);
    }
  }

  /** A tree as the parser builds it: every reference has a `$`-free name and no commands yet. */
  predicate Unresolved(q: StageQueue) {
    match q
    case Ref(n, cs) => '$' !in n && cs == []
    case Serial(a, b) => Unresolved(a) && Unresolved(b)
    case Parallel(a, b) => Unresolved(a) && Unresolved(b)
  }

  /** A tree as the parser builds it meets what `check` asks of its names and commands. */
  lemma {:induction false} UnresolvedIsDollarFree(q: StageQueue)
    requires Unresolved(q)
    ensures NamesDollarFree(q) && CommandsDollarFree(q)
  {
    match q
    case Ref(n, cs) =>
      assert Leaves(q) == [Leaf(n, cs)];
    case Serial(a, b) =>
      UnresolvedIsDollarFree(a);
      UnresolvedIsDollarFree(b);
      DollarFreeParent(q);
    case Parallel(a, b) =>
      UnresolvedIsDollarFree(a);
      UnresolvedIsDollarFree(b);
      DollarFreeParent(q);
  }

  /**
   * `check` over the tree as the source runs it: the virtual calls recurse into the
   * children and each reference runs `StageReference::check`.
   */
  method CheckQueue(stages: seq<Stage>, q: StageQueue, vars: Vars) returns (r: Checked)
    requires StagesClosed(stages) && DollarFreeValues(vars)
    requires NamesDollarFree(q) && CommandsDollarFree(q)
    ensures r == Check(stages, q, vars)
    decreases q
  {
    match q
    case Ref(n, cs) =>
      assert Leaves(q)[0].name == n;
      var ok, v, commands := CheckReference(stages, n, vars, cs);
      r := Checked(ok, v, Ref(n, commands));
    case Serial(a, b) =>
      DollarFreeChildren(q);
      var c1 := CheckQueue(stages, a, vars);
      if !c1.ok {
        return Checked(false, c1.vars, Serial(c1.queue, b));
      }
      CheckKeepsDollarFree(stages, a, vars);
      var c2 := CheckQueue(stages, b, c1.vars);
      r := Checked(c2.ok, c2.vars, Serial(c1.queue, c2.queue));
    case Parallel(a, b) =>
      DollarFreeChildren(q);
      var c1 := CheckQueue(stages, a, vars);
      if !c1.ok {
        return Checked(false, c1.vars, Parallel(c1.queue, b));
      }
      CheckKeepsDollarFree(stages, a, vars);
      var c2 := CheckQueue(stages, b, c1.vars);
      r := Checked(c2.ok, c2.vars, Parallel(c1.queue, c2.queue));
  }

  /** The verdict of an execution and the commands handed to `system`, in order. */
  datatype Executed = Executed(ok: bool, ran: seq<string>)

  /** `e` with the commands `p` run before it. */
  function After(p: seq<string>, e: Executed): Executed {
    Executed(e.ok, p + e.ran)
  }

  /** Running a command list: in order, stopping after the first nonzero exit code. */
  function RunCommands(cmds: seq<string>, system: string -> int): Executed {
    if cmds == [] then Executed(true, [])
    else if system(cmds[0]) != 0 then Executed(false, [cmds[0]])
    else After([cmds[0]], RunCommands(cmds[1..], system))
  }

  /**
   * The commands run are a prefix of the list that ends at the first command exiting
   * nonzero, if any; the run succeeds exactly when every command exits 0, so an empty
   * list succeeds.
   */
  lemma {:induction false} RunCommandsMeaning(cmds: seq<string>, system: string -> int)
    ensures var r := RunCommands(cmds, system);
      r.ran <= cmds &&
      (forall i | 0 <= i < |r.ran| - 1 :: system(r.ran[i]) == 0) &&
      (r.ok <==> r.ran == cmds && forall i | 0 <= i < |cmds| :: system(cmds[i]) == 0) &&
      (!r.ok ==> r.ran != [] && system(r.ran[|r.ran| - 1]) != 0)
    decreases |cmds|
  {
    if cmds != [] && system(cmds[0]) == 0 {
      RunCommandsMeaning(cmds[1..], system);
      var rest := RunCommands(cmds[1..], system);
      var r := RunCommands(cmds, system);
      assert r.ran == [cmds[0]] + rest.ran;
      assert forall i | 1 <= i < |r.ran| :: r.ran[i] == rest.ran[i - 1];
      assert forall i | 1 <= i < |cmds| :: cmds[i] == cmds[1..][i - 1];
      if r.ok {
        assert cmds == [cmds[0]] + cmds[1..];
      }
    }
  }

  lemma AfterTwice(p: seq<string>, q: seq<string>, e: Executed)
    ensures After(p, After(q, e)) == After(p + q, e)
  {
    AppendAssociative(p, q, e.ran);
  }

  /** Running two lists one after the other is running their concatenation. */
  lemma {:induction false} RunCommandsAppend(a: seq<string>, b: seq<string>, system: string -> int)
    ensures var ra := RunCommands(a, system);
      RunCommands(a + b, system) == if !ra.ok then ra else After(ra.ran, RunCommands(b, system))
    decreases |a|
  {
    if a == [] {
      assert a + b == b;
    } else {
      assert (a + b)[0] == a[0];
      assert (a + b)[1..] == a[1..] + b;
      if system(a[0]) == 0 {
        RunCommandsAppend(a[1..], b, system);
        var r1 := RunCommands(a[1..], system);
        if r1.ok {
          AfterTwice([a[0]], r1.ran, RunCommands(b, system));
        }
      }
    }
  }

  /** `StageReference::execute`: run the commands while every exit code so far is 0. */
  method ExecuteReference(commands: seq<string>, system: string -> int) returns (ok: bool, ran: seq<string>)
    ensures Executed(ok, ran) == RunCommands(commands, system)
  {
    var ret := 0;
    var i := 0;
    ran := [];
    while i < |commands| && ret == 0
      invariant 0 <= i <= |commands|
      invariant ran == commands[..i]
      invariant RunCommands(commands, system) ==
        if ret == 0 then After(ran, RunCommands(commands[i..], system)) else Executed(false, ran)
    {
      var c := commands[i];
      assert commands[i..][0] == c && commands[i..][1..] == commands[i + 1..];
      assert commands[..i + 1] == ran + [c];
      AfterTwice(ran, [c], RunCommands(commands[i + 1..], system));
      ret := system(c);
      ran := ran + [c];
      i := i + 1;
    }
    if ret == 0 {
      assert commands[i..] == [];
      assert ran + [] == ran;
    }
    ok := ret == 0;
  }

  /** `execute` over the tree: left child, then the right child if the left succeeded. */
  function Execute(q: StageQueue, system: string -> int): Executed {
    match q
    case Ref(_, cs) => RunCommands(cs, system)
    case Serial(a, b) =>
      var e1 := Execute(a, system);
      if !e1.ok then e1
      else
        var e2 := Execute(b, system);
        Executed(e2.ok, e1.ran + e2.ran)
    case Parallel(a, b) =>
      var e1 := Execute(a, system);
      if !e1.ok then e1
      else
        var e2 := Execute(b, system);
        Executed(e2.ok, e1.ran + e2.ran)
  }

  /**
   * Executing a tree runs its commands from left to right across all references and
   * stops after the first nonzero exit code: it is one run of `AllCommands`.
   */
  lemma {:induction false} ExecuteRunsAllCommands(q: StageQueue, system: string -> int)
    ensures Execute(q, system) == RunCommands(AllCommands(q), system)
  {
    match q
    case Ref(_, _) =>
    case Serial(a, b) =>
      ExecuteRunsAllCommands(a, system);
      ExecuteRunsAllCommands(b, system);
      RunCommandsAppend(AllCommands(a), AllCommands(b), system);
    case Parallel(a, b) =>
      ExecuteRunsAllCommands(a, system);
      ExecuteRunsAllCommands(b, system);
      RunCommandsAppend(AllCommands(a), AllCommands(b), system);
  }

  /** A `Parallel` node executes exactly as a `Serial` node over the same children. */
  lemma ParallelExecutesLikeSerial(a: StageQueue, b: StageQueue, system: string -> int)
    ensures Execute(Parallel(a, b), system) == Execute(Serial(a, b), system)
  {
  }

  /** `execute` over the tree as the source runs it, each reference through `ExecuteReference`. */
  method ExecuteQueue(q: StageQueue, system: string -> int) returns (r: Executed)
    ensures r == Execute(q, system)
    decreases q
  {
    match q
    case Ref(_, cs) =>
      var ok, ran := ExecuteReference(cs, system);
      r := Executed(ok, ran);
    case Serial(a, b) =>
      var e1 := ExecuteQueue(a, system);
      if !e1.ok {
        return e1;
      }
      var e2 := ExecuteQueue(b, system);
      r := Executed(e2.ok, e1.ran + e2.ran);
    case Parallel(a, b) =>
      var e1 := ExecuteQueue(a, system);
      if !e1.ok {
        return e1;
      }
      var e2 := ExecuteQueue(b, system);
      r := Executed(e2.ok, e1.ran + e2.ran);
  }

  /** `print`: `Serial(a,b)`, `Parallel(a,b)` or the bare reference name. */
  function Print(q: StageQueue): string {
    match q
    case Ref(n, _) => n
    case Serial(a, b) => "Serial(" + Print(a) + "," + Print(b) + ")"
    case Parallel(a, b) => "Parallel(" + Print(a) + "," + Print(b) + ")"
  }

  predicate IsDelimiter(c: char) {
    c == '(' || c == ')' || c == ','
  }

  /** Names that print unambiguously: not empty and free of `(`, `)` and `,`. */
  predicate PrintableNames(q: StageQueue) {
    forall i | 0 <= i < |Leaves(q)| :: Leaves(q)[i].name != [] &&
      forall j | 0 <= j < |Leaves(q)[i].name| :: !IsDelimiter(Leaves(q)[i].name[j])
  }

  /** The length of the name at the front of `s`: up to the first delimiter. */
  function NameLength(s: string): (k: nat)
    ensures k <= |s|
    ensures forall j | 0 <= j < k :: !IsDelimiter(s[j])
    ensures k < |s| ==> IsDelimiter(s[k])
  {
    if s == [] || IsDelimiter(s[0]) then 0 else 1 + NameLength(s[1..])
  }

  function StartsWith(s: string, p: string): bool {
    |p| <= |s| && s[..|p|] == p
  }

  /**
   * Reads a printed tree back from the front of `s` (without commands) and returns
   * what follows it.
   */
  function ReadQueue(s: string): (r: Option<(StageQueue, string)>)
    decreases |s|, 0
    ensures r.Some? ==> |r.value.1| < |s|
  {
    if StartsWith(s, "Serial(") then
      match ReadPair(s[7..])
      case None => None
      case Some(x) => Some((Serial(x.0, x.1), x.2))
    else if StartsWith(s, "Parallel(") then
      match ReadPair(s[9..])
      case None => None
      case Some(x) => Some((Parallel(x.0, x.1), x.2))
    else
      var k := NameLength(s);
      if k == 0 then None else Some((Ref(s[..k], []), s[k..]))
  }

  /** Reads `a,b)` from the front of `s`. */
  function ReadPair(s: string): (r: Option<(StageQueue, StageQueue, string)>)
    decreases |s|, 1
    ensures r.Some? ==> |r.value.2| < |s|
  {
    match ReadQueue(s)
    case None => None
    case Some(x) =>
      var rest1 := x.1;
      if rest1 == [] || rest1[0] != ',' then None
      else
        match ReadQueue(rest1[1..])
        case None => None
        case Some(y) =>
          var rest2 := y.1;
          if rest2 == [] || rest2[0] != ')' then None
          else Some((x.0, y.0, rest2[1..]))
  }

  predicate Follows(rest: string) {
    rest == [] || rest[0] == ',' || rest[0] == ')'
  }

  lemma PrintableChildren(q: StageQueue)
    requires !q.Ref? && PrintableNames(q)
    ensures PrintableNames(q.q1) && PrintableNames(q.q2)
  {
    assert Leaves(q) == Leaves(q.q1) + Leaves(q.q2);
    forall i | 0 <= i < |Leaves(q.q1)| ensures Leaves(q.q1)[i] == Leaves(q)[i] {}
    forall i | 0 <= i < |Leaves(q.q2)| ensures Leaves(q.q2)[i] == Leaves(q)[|Leaves(q.q1)| + i] {}
  }

  /** The number of nodes of a tree. */
  function Size(q: StageQueue): nat {
    match q
    case Ref(_, _) => 1
    case Serial(a, b) => Size(a) + Size(b) + 1
    case Parallel(a, b) => Size(a) + Size(b) + 1
  }

  /** The printed form of a tree reads back as its skeleton, whatever follows it. */
  lemma {:induction false} ReadPrinted(q: StageQueue, rest: string)
    requires PrintableNames(q) && Follows(rest)
    ensures ReadQueue(Print(q) + rest) == Some((Skeleton(q), rest))
    decreases Size(q), 1
  {
    if q.Ref? {
      assert Leaves(q)[0].name == q.name;
      ReadPrintedName(q.name, rest);
    } else {
      PrintableChildren(q);
      ReadPrintedPair(q.q1, q.q2, rest);
      ReadPrintedNode(q, rest);
    }
  }

  /** A node reads back once its two children, in `a,b)` form, do. */
  lemma ReadPrintedNode(q: StageQueue, rest: string)
    requires !q.Ref?
    requires ReadPair(Print(q.q1) + "," + Print(q.q2) + ")" + rest) == Some((Skeleton(q.q1), Skeleton(q.q2), rest))
    ensures ReadQueue(Print(q) + rest) == Some((Skeleton(q), rest))
  {
    var inner := Print(q.q1) + "," + Print(q.q2) + ")" + rest;
    var kw := if q.Serial? then "Serial(" else "Parallel(";
    ReadKeyword(kw, inner);
    PrintedNode(q, rest);
  }

  /** A printed node is its keyword followed by its children in `a,b)` form. */
  lemma PrintedNode(q: StageQueue, rest: string)
    requires !q.Ref?
    ensures Print(q) + rest ==
      (if q.Serial? then "Serial(" else "Parallel(") + (Print(q.q1) + "," + Print(q.q2) + ")" + rest)
  {
    var kw := if q.Serial? then "Serial(" else "Parallel(";
    var x1 := Print(q.q1) + ",";
    var x2 := x1 + Print(q.q2);
    var x3 := x2 + ")";
    AppendAssociative(kw, Print(q.q1), ",");
    AppendAssociative(kw, x1, Print(q.q2));
    AppendAssociative(kw, x2, ")");
    AppendAssociative(kw, x3, rest);
  }

  /** Reading `Serial(` or `Parallel(` followed by a pair. */
  lemma ReadKeyword(kw: string, inner: string)
    requires kw == "Serial(" || kw == "Parallel("
    ensures var s := kw + inner;
      ReadQueue(s) ==
        match ReadPair(inner)
        case None => None
        case Some(x) => Some((if kw == "Serial(" then Serial(x.0, x.1) else Parallel(x.0, x.1), x.2))
  {
    var s := kw + inner;
    assert s[..|kw|] == kw && s[|kw|..] == inner;
    if kw == "Parallel(" {
      assert s[0] == 'P' && s[..7][0] == s[0];
    }
  }

  lemma ReadPrintedName(n: string, rest: string)
    requires n != [] && forall j | 0 <= j < |n| :: !IsDelimiter(n[j])
    requires Follows(rest)
    ensures ReadQueue(n + rest) == Some((Ref(n, []), rest))
  {
    var s := n + rest;
    NotKeyword(n, rest, "Serial(");
    NotKeyword(n, rest, "Parallel(");
    NameLengthOf(n, rest);
    assert s[..|n|] == n && s[|n|..] == rest;
  }

  /** A name followed by what may follow it never starts like `Serial(` or `Parallel(`. */
  lemma NotKeyword(n: string, rest: string, kw: string)
    requires n != [] && forall j | 0 <= j < |n| :: !IsDelimiter(n[j])
    requires Follows(rest)
    requires kw != [] && kw[|kw| - 1] == '('
    requires forall j | 0 <= j < |kw| - 1 :: !IsDelimiter(kw[j])
    ensures !StartsWith(n + rest, kw)
  {
    var s := n + rest;
    if |kw| <= |s| {
      var k := if |n| >= |kw| then |kw| - 1 else |n|;
      if |n| >= |kw| {
        assert s[k] == n[k];
      } else {
        assert s[k] == rest[0];
      }
      assert s[k] != kw[k];
      assert s[..|kw|][k] == s[k];
    }
  }

  lemma {:induction false} ReadPrintedPair(a: StageQueue, b: StageQueue, rest: string)
    requires PrintableNames(a) && PrintableNames(b)
    ensures ReadPair(Print(a) + "," + Print(b) + ")" + rest) == Some((Skeleton(a), Skeleton(b), rest))
    decreases Size(a) + Size(b) + 1, 0
  {
    var rest2 := ")" + rest;
    var u := Print(b) + rest2;
    var rest1 := "," + u;
    PairText(Print(a), Print(b), rest);
    ReadPrinted(b, rest2);
    ReadPrinted(a, rest1);
    ReadPairParts(Print(a) + rest1, Skeleton(a), rest1, u, Skeleton(b), rest2, rest);
  }

  /** `a,b)rest` split at the comma and at the closing parenthesis. */
  lemma PairText(pa: string, pb: string, rest: string)
    ensures pa + "," + pb + ")" + rest == pa + ("," + (pb + (")" + rest)))
  {
    AppendAssociative(pa, ",", pb);
    AppendAssociative(pa + "," + pb, ")", rest);
    AppendAssociative(pa + ",", pb, ")" + rest);
    AppendAssociative(pa, ",", pb + (")" + rest));
  }

  /** `ReadPair` once both of its reads are known. */
  lemma ReadPairParts(s: string, x: StageQueue, rest1: string, u: string, y: StageQueue, rest2: string, rest: string)
    requires ReadQueue(s) == Some((x, rest1)) && rest1 == "," + u
    requires ReadQueue(u) == Some((y, rest2)) && rest2 == ")" + rest
    ensures ReadPair(s) == Some((x, y, rest))
  {
    assert rest1[1..] == u;
    assert rest2[1..] == rest;
  }

  lemma NameLengthOf(n: string, rest: string)
    requires forall j | 0 <= j < |n| :: !IsDelimiter(n[j])
    requires Follows(rest)
    ensures NameLength(n + rest) == |n|
    decreases |n|
  {
    if n == [] {
      assert n + rest == rest;
    } else {
      assert (n + rest)[1..] == n[1..] + rest;
      NameLengthOf(n[1..], rest);
    }
  }

  /** Two trees with printable names that print alike have the same skeleton. */
  lemma PrintDeterminesSkeleton(a: StageQueue, b: StageQueue)
    requires PrintableNames(a) && PrintableNames(b)
    requires Print(a) == Print(b)
    ensures Skeleton(a) == Skeleton(b)
  {
    ReadPrinted(a, []);
    ReadPrinted(b, []);
    assert Print(a) + [] == Print(a);
    assert Print(b) + [] == Print(b);
  }
}

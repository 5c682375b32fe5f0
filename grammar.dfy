/**
 * The script grammar (`BpipeParser`) as a recursive-descent parser with ordered
 * choice. Every parser works on the whole text from an index and skips the
 * `ascii::space` characters in front of each literal, character class and
 * `lexeme`; a parser that fails consumes nothing. A parse yields its value and
 * the index just past what it consumed.
 */
module Grammar {
  import opened Wrappers
  import opened Text
  import opened Stages
  import opened Queues

  datatype Parsed<T> = Parsed(value: T, end: nat)

  /** The parse succeeded with value `v` and ended at `e`. */
  predicate Yields<T(==)>(r: Option<Parsed<T>>, v: T, e: nat) {
    r.Some? && r.value.value == v && r.value.end == e
  }

  /** Two parses gave the same value and ended at the same index. */
  predicate Same<T(==)>(a: Parsed<T>, b: Parsed<T>) {
    a.value == b.value && a.end == b.end
  }

  /** The parse succeeded with the value and end of `p`. */
  predicate YieldsAs<T(==)>(r: Option<Parsed<T>>, p: Parsed<T>) {
    r.Some? && r.value.value == p.value && r.value.end == p.end
  }

  /** The parse, which cannot fail, gave value `v` and ended at `e`. */
  predicate Gives<T(==)>(r: Parsed<T>, v: T, e: nat) {
    r.value == v && r.end == e
  }

  /** The skipper: the first index at or after `i` that holds no space. */
  function Skip(s: string, i: nat): (j: nat)
    requires i <= |s|
    decreases |s| - i
    ensures i <= j <= |s|
    ensures j < |s| ==> !IsSpace(s[j])
  {
    if i == |s| || !IsSpace(s[i]) then i else Skip(s, i + 1)
  }

  /** Everything the skipper passes over is a space. */
  lemma {:induction false} SkipSpaces(s: string, i: nat)
    requires i <= |s|
    ensures forall k | i <= k < Skip(s, i) :: IsSpace(s[k])
    decreases |s| - i
  {
    if i < |s| && IsSpace(s[i]) {
      SkipSpaces(s, i + 1);
    }
  }

  /** Character `k` of `w` stands at index `j + k` of `s`. */
  predicate CharAt(s: string, j: nat, w: string, k: nat) {
    k < |w| && j + k < |s| && s[j + k] == w[k]
  }

  /** The text `w` stands in `s` at index `j`. */
  predicate MatchAt(s: string, j: nat, w: string) {
    j + |w| <= |s| && forall k | 0 <= k < |w| :: CharAt(s, j, w, k)
  }

  /** `lit(w)`: skip, then match `w` exactly. */
  function Lit(s: string, i: nat, w: string): (r: Option<nat>)
    requires i <= |s|
    ensures r.Some? ==> i + |w| <= r.value <= |s|
  {
    var j := Skip(s, i);
    if MatchAt(s, j, w) then Some(j + |w|) else None
  }

  /** `-lit(w)`: the literal if it is there, nothing otherwise. */
  function OptLit(s: string, i: nat, w: string): (e: nat)
    requires i <= |s|
    ensures i <= e <= |s|
  {
    match Lit(s, i, w)
    case None => i
    case Some(e) => e
  }

  /** The end of `+(char_ - '"')` inside a `lexeme`: ASCII characters other than `"`. */
  function QuotedBodyEnd(s: string, from: nat): (k: nat)
    requires from <= |s|
    decreases |s| - from
    ensures from <= k <= |s|
    ensures k < |s| ==> s[k] == '"' || !IsAscii(s[k])
  {
    if from == |s| || s[from] == '"' || !IsAscii(s[from]) then from else QuotedBodyEnd(s, from + 1)
  }

  /** The body of a quoted string holds ASCII characters other than `"`. */
  lemma {:induction false} QuotedBodyChars(s: string, from: nat)
    requires from <= |s|
    ensures forall m | from <= m < QuotedBodyEnd(s, from) :: s[m] != '"' && IsAscii(s[m])
    decreases |s| - from
  {
    if from < |s| && s[from] != '"' && IsAscii(s[from]) {
      QuotedBodyChars(s, from + 1);
    }
  }

  /** `quoted_string`: one or more ASCII characters other than `"` between `"` marks, no escapes. */
  function ParseQuoted(s: string, i: nat): (r: Option<Parsed<string>>)
    requires i <= |s|
    ensures r.Some? ==> i < r.value.end <= |s| && r.value.value != []
  {
    var j := Skip(s, i);
    if j < |s| && s[j] == '"' then
      var k := QuotedBodyEnd(s, j + 1);
      if j + 1 < k < |s| && s[k] == '"' then Some(Parsed(s[j + 1..k], k + 1)) else None
    else None
  }

  /** One item of `unquoted_string`: an escaped `"`, an escaped `\` or an alphanumeric character. */
  datatype NameItem = EscapedQuote | EscapedBackslash | NameChar(c: char)

  function ParseNameItem(s: string, i: nat): (r: Option<Parsed<NameItem>>)
    requires i <= |s|
    ensures r.Some? ==> i < r.value.end <= |s|
  {
    var j := Skip(s, i);
    if MatchAt(s, j, "\\\"") then Some(Parsed(EscapedQuote, j + 2))
    else if MatchAt(s, j, "\\\\") then Some(Parsed(EscapedBackslash, j + 2))
    else if j < |s| && IsAlnum(s[j]) then Some(Parsed(NameChar(s[j]), j + 1))
    else None
  }

  /**
   * The attribute after one more item: a character is appended, while the actions
   * of the two escapes assign the whole attribute, leaving just the escaped character.
   */
  function ApplyItem(item: NameItem, acc: string): (r: string)
    ensures r != []
  {
    match item
    case EscapedQuote => "\""
    case EscapedBackslash => "\\"
    case NameChar(c) => acc + [c]
  }

  function NameTail(s: string, i: nat, acc: string): (r: Parsed<string>)
    requires i <= |s|
    decreases |s| - i
    ensures i <= r.end <= |s|
    ensures acc != [] ==> r.value != []
  {
    match ParseNameItem(s, i)
    case None => Parsed(acc, i)
    case Some(p) => NameTail(s, p.end, ApplyItem(p.value, acc))
  }

  /** `unquoted_string`: one or more items, with the skipper active between them. */
  function ParseUnquoted(s: string, i: nat): (r: Option<Parsed<string>>)
    requires i <= |s|
    ensures r.Some? ==> i < r.value.end <= |s| && r.value.value != []
  {
    match ParseNameItem(s, i)
    case None => None
    case Some(p) => Some(NameTail(s, p.end, ApplyItem(p.value, "")))
  }

  /** `doc_attribute_name`. */
  function ParseDocAttributeName(s: string, i: nat): (r: Option<nat>)
    requires i <= |s|
    ensures r.Some? ==> i < r.value <= |s|
  {
    match Lit(s, i, "title")
    case Some(e) => Some(e)
    case None =>
      match Lit(s, i, "author")
      case Some(e) => Some(e)
      case None =>
        match Lit(s, i, "constraints")
        case Some(e) => Some(e)
        case None => Lit(s, i, "desc")
  }

  /** `*(doc_attribute_name >> ":" >> quoted_string >> -lit(","))`. */
  function DocAttributes(s: string, i: nat): (e: nat)
    requires i <= |s|
    decreases |s| - i
    ensures i <= e <= |s|
  {
    match ParseDocAttributeName(s, i)
    case None => i
    case Some(j) =>
      match Lit(s, j, ":")
      case None => i
      case Some(k) =>
        match ParseQuoted(s, k)
        case None => i
        case Some(q) => DocAttributes(s, OptLit(s, q.end, ","))
  }

  /** `doc_statement`: a quoted text, or else any number of attributes. */
  function ParseDoc(s: string, i: nat): (r: Option<nat>)
    requires i <= |s|
    ensures r.Some? ==> i < r.value <= |s|
  {
    match Lit(s, i, "doc")
    case None => None
    case Some(j) =>
      match ParseQuoted(s, j)
      case Some(q) => Some(q.end)
      case None => Some(DocAttributes(s, j))
  }

  /** `msg_statement`. */
  function ParseMsg(s: string, i: nat): (r: Option<nat>)
    requires i <= |s|
    ensures r.Some? ==> i < r.value <= |s|
  {
    match Lit(s, i, "msg")
    case None => None
    case Some(j) =>
      match ParseQuoted(s, j)
      case None => None
      case Some(q) => Some(OptLit(s, q.end, ";"))
  }

  /** `exec_statement`: its attribute is the quoted command template. */
  function ParseExec(s: string, i: nat): (r: Option<Parsed<string>>)
    requires i <= |s|
    ensures r.Some? ==> i < r.value.end <= |s|
  {
    match Lit(s, i, "exec")
    case None => None
    case Some(j) =>
      match ParseQuoted(s, j)
      case None => None
      case Some(q) => Some(Parsed(q.value, OptLit(s, q.end, ";")))
  }

  /** A statement of a stage block; only `exec` contributes (`addExecLine`). */
  datatype Statement = DocStatement | MsgStatement | ExecStatement(line: string)

  function ParseStatement(s: string, i: nat): (r: Option<Parsed<Statement>>)
    requires i <= |s|
    ensures r.Some? ==> i < r.value.end <= |s|
  {
    match ParseDoc(s, i)
    case Some(e) => Some(Parsed(DocStatement, e))
    case None =>
      match ParseMsg(s, i)
      case Some(e) => Some(Parsed(MsgStatement, e))
      case None =>
        match ParseExec(s, i)
        case Some(p) => Some(Parsed(ExecStatement(p.value), p.end))
        case None => None
  }

  function AddStatement(st: Statement, lines: seq<string>): seq<string> {
    if st.ExecStatement? then lines + [st.line] else lines
  }

  /** The rest of `+(doc_statement | msg_statement | exec_statement)`, collecting exec lines in order. */
  function Statements(s: string, i: nat, lines: seq<string>): (r: Parsed<seq<string>>)
    requires i <= |s|
    decreases |s| - i
    ensures i <= r.end <= |s|
  {
    match ParseStatement(s, i)
    case None => Parsed(lines, i)
    case Some(p) => Statements(s, p.end, AddStatement(p.value, lines))
  }

  /** `-(lit("forward") >> lit("input") >> -lit(";"))`: whether it matched, and where it ends. */
  function ParseForward(s: string, i: nat): (r: Parsed<bool>)
    requires i <= |s|
    ensures i <= r.end <= |s|
  {
    match Lit(s, i, "forward")
    case None => Parsed(false, i)
    case Some(j) =>
      match Lit(s, j, "input")
      case None => Parsed(false, i)
      case Some(k) => Parsed(true, OptLit(s, k, ";"))
  }

  /**
   * `stage_block`: a fresh unnamed stage with the exec lines of its statements. The
   * block needs one statement at least, that is, the statements must consume text.
   */
  function ParseBlock(s: string, i: nat): (r: Option<Parsed<Stage>>)
    requires i <= |s|
    ensures r.Some? ==> i < r.value.end <= |s|
  {
    match Lit(s, i, "{")
    case None => None
    case Some(j) =>
      var body := Statements(s, j, []);
      if body.end == j then None
      else
        var fwd := ParseForward(s, body.end);
        match Lit(s, fwd.end, "}")
        case None => None
        case Some(e) => Some(Parsed(Stage("", body.value, fwd.value), e))
  }

  /**
   * `stage_generator`: a block, or `name = generator`; the assignment's action
   * renames the generated stage, so in `a = b = {...}` the outer name `a` wins.
   */
  function ParseGenerator(s: string, i: nat): (r: Option<Parsed<Stage>>)
    requires i <= |s|
    decreases |s| - i
    ensures r.Some? ==> i < r.value.end <= |s|
  {
    match ParseBlock(s, i)
    case Some(b) => Some(b)
    case None =>
      match ParseUnquoted(s, i)
      case None => None
      case Some(n) =>
        match Lit(s, n.end, "=")
        case None => None
        case Some(j) =>
          match ParseGenerator(s, j)
          case None => None
          case Some(g) => Some(Parsed(Stage(n.value, g.value.execLines, g.value.forwardInput), g.end))
  }

  /** `var_assignment`: `name = "value"`. */
  function ParseVarAssignment(s: string, i: nat): (r: Option<Parsed<(string, string)>>)
    requires i <= |s|
    ensures r.Some? ==> i < r.value.end <= |s|
  {
    match ParseUnquoted(s, i)
    case None => None
    case Some(n) =>
      match Lit(s, n.end, "=")
      case None => None
      case Some(j) =>
        match ParseQuoted(s, j)
        case None => None
        case Some(v) => Some(Parsed((n.value, v.value), v.end))
  }

  /** `about_block`. */
  function ParseAbout(s: string, i: nat): (r: Option<nat>)
    requires i <= |s|
    ensures r.Some? ==> i < r.value <= |s|
  {
    match Lit(s, i, "about")
    case None => None
    case Some(j) =>
      match Lit(s, j, "title")
      case None => None
      case Some(k) =>
        match Lit(s, k, ":")
        case None => None
        case Some(m) =>
          match ParseQuoted(s, m)
          case None => None
          case Some(q) => Some(q.end)
  }

  /** A top-level item: a stage definition, a global assignment or an about block. */
  datatype Item = StageItem(stage: Stage) | VarItem(name: string, value: string) | AboutItem

  function ParseItem(s: string, i: nat): (r: Option<Parsed<Item>>)
    requires i <= |s|
    ensures r.Some? ==> i < r.value.end <= |s|
  {
    match ParseGenerator(s, i)
    case Some(g) => Some(Parsed(StageItem(g.value), g.end))
    case None =>
      match ParseVarAssignment(s, i)
      case Some(v) => Some(Parsed(VarItem(v.value.0, v.value.1), v.end))
      case None =>
        match ParseAbout(s, i)
        case Some(e) => Some(Parsed(AboutItem, e))
        case None => None
  }

  /** What the items leave behind: the stages in order and the global assignments in order. */
  datatype Declarations = Declarations(stages: seq<Stage>, assignments: seq<(string, string)>)

  function Declare(item: Item, d: Declarations): Declarations {
    match item
    case StageItem(st) => Declarations(d.stages + [st], d.assignments)
    case VarItem(n, v) => Declarations(d.stages, d.assignments + [(n, v)])
    case AboutItem => d
  }

  /** `*((stage_definition | var_assignment | about_block) >> -lit(";"))`. */
  function Items(s: string, i: nat, d: Declarations): (r: Parsed<Declarations>)
    requires i <= |s|
    decreases |s| - i
    ensures i <= r.end <= |s|
  {
    match ParseItem(s, i)
    case None => Parsed(d, i)
    case Some(p) => Items(s, OptLit(s, p.end, ";"), Declare(p.value, d))
  }

  /** `stage_reference`: a reference with no commands yet. */
  function ParseReference(s: string, i: nat): (r: Option<Parsed<StageQueue>>)
    requires i <= |s|
    ensures r.Some? ==> i < r.value.end <= |s|
  {
    match ParseUnquoted(s, i)
    case None => None
    case Some(n) => Some(Parsed(Ref(n.value, []), n.end))
  }

  /** `stage_parallel_queue | stage_reference`, the elements of a serial queue. */
  function ParseElement(s: string, i: nat): (r: Option<Parsed<StageQueue>>)
    requires i <= |s|
    decreases |s| - i, 1
    ensures r.Some? ==> i < r.value.end <= |s|
  {
    match ParseParallel(s, i)
    case Some(p) => Some(p)
    case None => ParseReference(s, i)
  }

  /** `stage_serial_queue`: elements joined by `+`, folded to the left. */
  function ParseSerial(s: string, i: nat): (r: Option<Parsed<StageQueue>>)
    requires i <= |s|
    decreases |s| - i, 2
    ensures r.Some? ==> i < r.value.end <= |s|
  {
    match ParseElement(s, i)
    case None => None
    case Some(first) => Some(SerialTail(s, first.end, first.value))
  }

  function SerialTail(s: string, i: nat, acc: StageQueue): (r: Parsed<StageQueue>)
    requires i <= |s|
    decreases |s| - i, 4
    ensures i <= r.end <= |s|
  {
    match Lit(s, i, "+")
    case None => Parsed(acc, i)
    case Some(j) =>
      match ParseElement(s, j)
      case None => Parsed(acc, i)
      case Some(e) => SerialTail(s, e.end, Serial(acc, e.value))
  }

  /** `stage_parallel_queue`: queues joined by `,` between brackets, folded to the left. */
  function ParseParallel(s: string, i: nat): (r: Option<Parsed<StageQueue>>)
    requires i <= |s|
    decreases |s| - i, 0
    ensures r.Some? ==> i < r.value.end <= |s|
  {
    match Lit(s, i, "[")
    case None => None
    case Some(j) =>
      match ParseQueue(s, j)
      case None => None
      case Some(first) =>
        var all := ParallelTail(s, first.end, first.value);
        match Lit(s, all.end, "]")
        case None => None
        case Some(e) => Some(Parsed(all.value, e))
  }

  function ParallelTail(s: string, i: nat, acc: StageQueue): (r: Parsed<StageQueue>)
    requires i <= |s|
    decreases |s| - i, 4
    ensures i <= r.end <= |s|
  {
    match Lit(s, i, ",")
    case None => Parsed(acc, i)
    case Some(j) =>
      match ParseQueue(s, j)
      case None => Parsed(acc, i)
      case Some(q) => ParallelTail(s, q.end, Parallel(acc, q.value))
  }

  /** `stage_queue`: ordered choice, a parallel queue first. */
  function ParseQueue(s: string, i: nat): (r: Option<Parsed<StageQueue>>)
    requires i <= |s|
    decreases |s| - i, 3
    ensures r.Some? ==> i < r.value.end <= |s|
  {
    match ParseParallel(s, i)
    case Some(p) => Some(p)
    case None => ParseSerial(s, i)
  }

  /** `run_block`: `Bpipe.run { serial queue }` or `run { serial queue }`. */
  function ParseRun(s: string, i: nat): (r: Option<Parsed<StageQueue>>)
    requires i <= |s|
    ensures r.Some? ==> i < r.value.end <= |s|
  {
    var kw := match Lit(s, i, "Bpipe.run") case Some(e) => Some(e) case None => Lit(s, i, "run");
    match kw
    case None => None
    case Some(j) =>
      match Lit(s, j, "{")
      case None => None
      case Some(k) =>
        match ParseSerial(s, k)
        case None => None
        case Some(q) =>
          match Lit(s, q.end, "}")
          case None => None
          case Some(e) => Some(Parsed(q.value, e))
  }

  /** A parsed script: its declarations and its run task. */
  datatype Script = Script(stages: seq<Stage>, assignments: seq<(string, string)>, run: StageQueue)

  /** `bpipe_file`: any number of items, then the run block. */
  function ParseFile(s: string): (r: Option<Parsed<Script>>)
    ensures r.Some? ==> 0 < r.value.end <= |s|
  {
    var items := Items(s, 0, Declarations([], []));
    match ParseRun(s, items.end)
    case None => None
    case Some(q) => Some(Parsed(Script(items.value.stages, items.value.assignments, q.value), q.end))
  }
}

/** Properties of the script grammar. */
module GrammarFacts {
  import opened Wrappers
  import opened Text
  import opened Stages
  import opened Queues
  import opened Grammar

  lemma MatchAtConcat(s: string, i: nat, a: string, b: string)
    ensures MatchAt(s, i, a + b) <==> MatchAt(s, i, a) && MatchAt(s, i + |a|, b)
  {
    if MatchAt(s, i, a) && MatchAt(s, i + |a|, b) {
      forall k | 0 <= k < |a + b| ensures CharAt(s, i, a + b, k) {
        if k >= |a| {
          assert CharAt(s, i + |a|, b, k - |a|);
        } else {
          assert CharAt(s, i, a, k);
        }
      }
    }
    if MatchAt(s, i, a + b) {
      var j := i + |a|;
      forall k | 0 <= k < |b| ensures CharAt(s, j, b, k) {
        assert CharAt(s, i, a + b, |a| + k);
      }
      forall k | 0 <= k < |a| ensures CharAt(s, i, a, k) {
        assert CharAt(s, i, a + b, k);
      }
    }
  }

  lemma MatchAtIndex(s: string, j: nat, w: string, k: nat)
    requires MatchAt(s, j, w) && k < |w|
    ensures s[j + k] == w[k]
  {
    assert CharAt(s, j, w, k);
  }

  /** A word whose first character differs from the text's is not there. */
  lemma MismatchAt(s: string, j: nat, w: string)
    requires j < |s| && w != [] && s[j] != w[0]
    ensures !MatchAt(s, j, w)
  {
    assert !CharAt(s, j, w, 0);
  }

  /** A literal that stands right at `j`, not behind spaces, is matched there. */
  lemma LitHere(s: string, j: nat, w: string)
    requires w != [] && MatchAt(s, j, w) && !IsSpace(w[0])
    ensures Lit(s, j, w) == Some(j + |w|)
  {
    assert CharAt(s, j, w, 0);
  }

  /** A literal fails where a different non-space character stands, or at the end. */
  lemma LitFails(s: string, j: nat, w: string)
    requires j <= |s| && w != []
    requires j == |s| || (!IsSpace(s[j]) && s[j] != w[0])
    ensures Lit(s, j, w).None?
  {
    if j < |s| {
      assert Skip(s, j) == j;
      MismatchAt(s, j, w);
    }
  }

  /** What may follow a name without extending it. */
  predicate NameEnds(s: string, e: nat) {
    e == |s| || (e < |s| && !IsSpace(s[e]) && s[e] != '\\' && !IsAlnum(s[e]))
  }

  predicate AlnumName(n: string) {
    n != [] && forall k | 0 <= k < |n| :: IsAlnum(n[k])
  }

  lemma {:induction false} NameTailReads(s: string, i: nat, n: string, k: nat)
    requires AlnumName(n) && MatchAt(s, i, n) && NameEnds(s, i + |n|)
    requires 1 <= k <= |n|
    ensures Gives(NameTail(s, i + k, n[..k]), n, i + |n|)
    decreases |n| - k
  {
    if k == |n| {
      assert n[..k] == n;
      var e := i + |n|;
      if e < |s| {
        assert Skip(s, e) == e;
        MismatchAt(s, e, "\\\"");
        MismatchAt(s, e, "\\\\");
      }
      assert ParseNameItem(s, e).None?;
    } else {
      var j := i + k;
      MatchAtIndex(s, i, n, k);
      assert Skip(s, j) == j;
      MismatchAt(s, j, "\\\"");
      MismatchAt(s, j, "\\\\");
      assert Yields(ParseNameItem(s, j), NameChar(n[k]), j + 1);
      assert n[..k] + [n[k]] == n[..k + 1];
      NameTailReads(s, i, n, k + 1);
    }
  }

  /** An alphanumeric name that nothing extends reads back as itself. */
  lemma NameReadsBack(s: string, i: nat, n: string)
    requires AlnumName(n) && MatchAt(s, i, n) && NameEnds(s, i + |n|)
    ensures Yields(ParseUnquoted(s, i), n, i + |n|)
  {
    MatchAtIndex(s, i, n, 0);
    assert Skip(s, i) == i;
    MismatchAt(s, i, "\\\"");
    MismatchAt(s, i, "\\\\");
    assert Yields(ParseNameItem(s, i), NameChar(n[0]), i + 1);
    assert ApplyItem(NameChar(n[0]), "") == n[..1];
    NameTailReads(s, i, n, 1);
  }

  /**
   * A quoted string reads back as exactly the characters between its quotes: there
   * is no escape, so the value is the raw text.
   */
  lemma QuotedReadsBack(s: string, i: nat, v: string)
    requires v != [] && forall k | 0 <= k < |v| :: v[k] != '"' && IsAscii(v[k])
    requires MatchAt(s, i, "\"" + v + "\"")
    ensures Yields(ParseQuoted(s, i), v, i + |v| + 2)
  {
    MatchAtConcat(s, i, "\"" + v, "\"");
    MatchAtConcat(s, i, "\"", v);
    MatchAtIndex(s, i, "\"", 0);
    assert Skip(s, i) == i;
    forall m | i + 1 <= m < i + 1 + |v| ensures s[m] != '"' && IsAscii(s[m]) {
      MatchAtIndex(s, i + 1, v, m - i - 1);
    }
    MatchAtIndex(s, i + 1 + |v|, "\"", 0);
    assert QuotedBodyEnd(s, i + 1) == i + 1 + |v| by {
      QuotedBodyEndAt(s, i + 1, i + 1 + |v|);
    }
    assert s[i + 1..i + 1 + |v|] == v by {
      forall m | 0 <= m < |v| ensures s[i + 1..i + 1 + |v|][m] == v[m] {
        MatchAtIndex(s, i + 1, v, m);
      }
    }
  }

  lemma {:induction false} QuotedBodyEndAt(s: string, from: nat, k: nat)
    requires from <= k < |s| && s[k] == '"'
    requires forall m | from <= m < k :: s[m] != '"' && IsAscii(s[m])
    ensures QuotedBodyEnd(s, from) == k
    decreases k - from
  {
    if from < k {
      QuotedBodyEndAt(s, from + 1, k);
    }
  }

  /** Conversely, what a quoted string yields is the raw text between two quotes. */
  lemma QuotedIsRaw(s: string, i: nat)
    requires i <= |s| && ParseQuoted(s, i).Some?
    ensures var p := ParseQuoted(s, i).value;
      var start := p.end - |p.value| - 2;
      i <= start && s[start] == '"' && s[p.end - 1] == '"' &&
      s[start + 1..p.end - 1] == p.value &&
      (forall k | i <= k < start :: IsSpace(s[k])) &&
      forall k | 0 <= k < |p.value| :: p.value[k] != '"' && IsAscii(p.value[k])
  {
    SkipSpaces(s, i);
    QuotedBodyChars(s, Skip(s, i) + 1);
  }

  /** Rendering a run tree as script text, without spaces. */
  function Render(q: StageQueue): string {
    match q
    case Ref(n, _) => n
    case Serial(a, b) => Render(a) + "+" + Render(b)
    case Parallel(a, b) => "[" + Render(a) + "," + Render(b) + "]"
  }

  /** Every reference has a non-empty alphanumeric name and no commands. */
  predicate PlainNames(q: StageQueue) {
    match q
    case Ref(n, cs) => AlnumName(n) && cs == []
    case Serial(a, b) => PlainNames(a) && PlainNames(b)
    case Parallel(a, b) => PlainNames(a) && PlainNames(b)
  }

  /**
   * The trees the grammar builds: a serial queue is a left-leaning chain of elements,
   * an element is a reference or a bracketed parallel queue, and inside brackets a
   * queue that starts with a bracket is taken as a parallel queue (`lead` says
   * whether a chain may start with one).
   */
  predicate SerialForm(q: StageQueue, lead: bool) {
    match q
    case Ref(_, _) => true
    case Parallel(a, b) => lead && BracketForm(a) && BracketForm(b)
    case Serial(a, b) => SerialForm(a, lead) && ElementForm(b)
  }

  predicate ElementForm(q: StageQueue) {
    match q
    case Ref(_, _) => true
    case Parallel(a, b) => BracketForm(a) && BracketForm(b)
    case Serial(_, _) => false
  }

  predicate BracketForm(q: StageQueue) {
    match q
    case Parallel(a, b) => BracketForm(a) && BracketForm(b)
    case _ => SerialForm(q, false)
  }

  /** What may follow a queue: the end, or a `,`, `]` or `}`. */
  predicate QueueEnds(s: string, e: nat) {
    e == |s| || (e < |s| && (s[e] == ',' || s[e] == ']' || s[e] == '}'))
  }

  /** What may follow an element of a serial queue. */
  predicate ElementEnds(s: string, e: nat) {
    QueueEnds(s, e) || (e < |s| && s[e] == '+')
  }

  lemma RenderStartsWithName(q: StageQueue)
    requires SerialForm(q, false) && PlainNames(q)
    ensures Render(q) != [] && IsAlnum(Render(q)[0])
  {
    match q
    case Ref(n, _) =>
    case Serial(a, b) =>
      RenderStartsWithName(a);
      assert Render(q)[0] == Render(a)[0];
  }

  lemma ReferenceRoundTrip(s: string, i: nat, n: string)
    requires AlnumName(n) && MatchAt(s, i, n) && ElementEnds(s, i + |n|)
    ensures Yields(ParseReference(s, i), Ref(n, []), i + |n|)
    ensures Yields(ParseElement(s, i), Ref(n, []), i + |n|)
  {
    NameReadsBack(s, i, n);
    MatchAtIndex(s, i, n, 0);
    LitFails(s, i, "[");
  }

  /** Where the parts of a rendered parallel node stand. */
  lemma ParallelText(s: string, i: nat, q: StageQueue)
    requires q.Parallel? && MatchAt(s, i, Render(q))
    ensures var k := i + 1 + |Render(q.q1)|;
      var m := k + 1 + |Render(q.q2)|;
      m + 1 == i + |Render(q)| <= |s| &&
      Lit(s, i, "[") == Some(i + 1) && MatchAt(s, i + 1, Render(q.q1)) && QueueEnds(s, k) &&
      Lit(s, k, ",") == Some(k + 1) && MatchAt(s, k + 1, Render(q.q2)) && QueueEnds(s, m) &&
      Lit(s, m, ",").None? && Lit(s, m, "]") == Some(m + 1)
  {
    var r1 := Render(q.q1);
    var r2 := Render(q.q2);
    var k := i + 1 + |r1|;
    var m := k + 1 + |r2|;
    MatchAtConcat(s, i, "[" + r1 + "," + r2, "]");
    MatchAtConcat(s, i, "[" + r1 + ",", r2);
    MatchAtConcat(s, i, "[" + r1, ",");
    MatchAtConcat(s, i, "[", r1);
    LitHere(s, i, "[");
    LitHere(s, k, ",");
    LitHere(s, m, "]");
    MatchAtIndex(s, k, ",", 0);
    MatchAtIndex(s, m, "]", 0);
    LitFails(s, m, ",");
  }

  /** The parallel parser run over its parts, one step at a time. */
  lemma ParallelSteps(s: string, i: nat, q1: StageQueue, q2: StageQueue, k: nat, m: nat)
    requires i < k < m < |s|
    requires Lit(s, i, "[") == Some(i + 1) && Yields(ParseQueue(s, i + 1), q1, k)
    requires Lit(s, k, ",") == Some(k + 1) && Yields(ParseQueue(s, k + 1), q2, m)
    requires Lit(s, m, ",").None? && Lit(s, m, "]") == Some(m + 1)
    ensures Yields(ParseParallel(s, i), Parallel(q1, q2), m + 1)
  {
    assert Gives(ParallelTail(s, m, Parallel(q1, q2)), Parallel(q1, q2), m);
    assert Gives(ParallelTail(s, k, q1), Parallel(q1, q2), m);
  }

  /** A bracketed queue reads back as the parallel node it renders. */
  lemma {:induction false} ParallelRoundTrip(s: string, i: nat, q: StageQueue)
    requires q.Parallel? && BracketForm(q) && PlainNames(q)
    requires MatchAt(s, i, Render(q))
    ensures Yields(ParseParallel(s, i), q, i + |Render(q)|)
    ensures Yields(ParseElement(s, i), q, i + |Render(q)|)
    decreases q, 0
  {
    ParallelText(s, i, q);
    var k := i + 1 + |Render(q.q1)|;
    var m := k + 1 + |Render(q.q2)|;
    QueueRoundTrip(s, i + 1, q.q1);
    QueueRoundTrip(s, k + 1, q.q2);
    ParallelSteps(s, i, q.q1, q.q2, k, m);
  }

  /** Where the parts of a rendered serial node stand. */
  lemma SerialText(s: string, i: nat, q: StageQueue)
    requires q.Serial? && MatchAt(s, i, Render(q))
    ensures var j := i + |Render(q.q1)|;
      j + 1 + |Render(q.q2)| == i + |Render(q)| <= |s| &&
      MatchAt(s, i, Render(q.q1)) && ElementEnds(s, j) && Lit(s, j, "+") == Some(j + 1) &&
      MatchAt(s, j + 1, Render(q.q2))
  {
    var ra := Render(q.q1);
    MatchAtConcat(s, i, ra + "+", Render(q.q2));
    MatchAtConcat(s, i, ra, "+");
    MatchAtIndex(s, i + |ra|, "+", 0);
    LitHere(s, i + |ra|, "+");
  }

  /** One more element of a serial chain, read by the tail parser. */
  lemma SerialStep(s: string, i: nat, j: nat, a: StageQueue, b: StageQueue, m: nat)
    requires i <= j < m <= |s|
    requires Lit(s, j, "+") == Some(j + 1) && Yields(ParseElement(s, j + 1), b, m)
    ensures Same(SerialTail(s, j, a), SerialTail(s, m, Serial(a, b)))
  {
  }

  /**
   * A serial chain read from its start continues, at its end, exactly as the tail
   * of a longer chain with the chain read so far.
   */
  lemma {:induction false} SerialPrefix(s: string, i: nat, q: StageQueue, lead: bool)
    requires SerialForm(q, lead) && PlainNames(q)
    requires MatchAt(s, i, Render(q)) && ElementEnds(s, i + |Render(q)|)
    ensures YieldsAs(ParseSerial(s, i), SerialTail(s, i + |Render(q)|, q))
    decreases q, 5
  {
    if q.Serial? {
      SerialPrefixNode(s, i, q, lead);
    } else {
      SerialPrefixElement(s, i, q);
    }
  }

  lemma {:induction false} SerialPrefixNode(s: string, i: nat, q: StageQueue, lead: bool)
    requires q.Serial? && SerialForm(q, lead) && PlainNames(q)
    requires MatchAt(s, i, Render(q)) && ElementEnds(s, i + |Render(q)|)
    ensures YieldsAs(ParseSerial(s, i), SerialTail(s, i + |Render(q)|, q))
    decreases q, 4
  {
    var j := i + |Render(q.q1)|;
    var m := i + |Render(q)|;
    assert YieldsAs(ParseSerial(s, i), SerialTail(s, j, q.q1)) by {
      SerialText(s, i, q);
      SerialPrefix(s, i, q.q1, lead);
    }
    assert Same(SerialTail(s, j, q.q1), SerialTail(s, m, q)) by {
      SerialText(s, i, q);
      SerialNode(s, i, j, q.q1, q.q2, m);
    }
  }

  lemma {:induction false} SerialPrefixElement(s: string, i: nat, q: StageQueue)
    requires ElementForm(q) && PlainNames(q)
    requires MatchAt(s, i, Render(q)) && ElementEnds(s, i + |Render(q)|)
    ensures YieldsAs(ParseSerial(s, i), SerialTail(s, i + |Render(q)|, q))
    decreases q, 4
  {
    ElementRoundTrip(s, i, q);
    SerialStart(s, i, q, i + |Render(q)|);
  }

  /** The last element of a chain, after the rest of the chain. */
  lemma {:induction false} SerialNode(s: string, i: nat, j: nat, a: StageQueue, b: StageQueue, m: nat)
    requires ElementForm(b) && PlainNames(b)
    requires i <= j && j + 1 + |Render(b)| == m <= |s|
    requires Lit(s, j, "+") == Some(j + 1) && MatchAt(s, j + 1, Render(b)) && ElementEnds(s, m)
    ensures Same(SerialTail(s, j, a), SerialTail(s, m, Serial(a, b)))
    decreases b, 4
  {
    ElementRoundTrip(s, j + 1, b);
    SerialStep(s, i, j, a, b, m);
  }

  lemma SerialStart(s: string, i: nat, q: StageQueue, e: nat)
    requires i < e <= |s| && Yields(ParseElement(s, i), q, e)
    ensures YieldsAs(ParseSerial(s, i), SerialTail(s, e, q))
  {
  }

  lemma {:induction false} ElementRoundTrip(s: string, i: nat, q: StageQueue)
    requires ElementForm(q) && PlainNames(q)
    requires MatchAt(s, i, Render(q)) && ElementEnds(s, i + |Render(q)|)
    ensures Yields(ParseElement(s, i), q, i + |Render(q)|)
    decreases q, 3
  {
    if q.Ref? {
      ReferenceRoundTrip(s, i, q.name);
    } else {
      ParallelRoundTrip(s, i, q);
    }
  }

  /** A queue inside brackets reads back as the tree it renders. */
  lemma {:induction false} QueueRoundTrip(s: string, i: nat, q: StageQueue)
    requires BracketForm(q) && PlainNames(q)
    requires MatchAt(s, i, Render(q)) && QueueEnds(s, i + |Render(q)|)
    ensures Yields(ParseQueue(s, i), q, i + |Render(q)|)
    decreases q, 6
  {
    if q.Parallel? {
      ParallelRoundTrip(s, i, q);
    } else {
      RenderStartsWithName(q);
      MatchAtIndex(s, i, Render(q), 0);
      LitFails(s, i, "[");
      SerialPrefix(s, i, q, false);
      SerialEnds(s, i + |Render(q)|, q);
    }
  }

  /** A serial tail stops where no `+` follows. */
  lemma SerialEnds(s: string, e: nat, q: StageQueue)
    requires QueueEnds(s, e)
    ensures Gives(SerialTail(s, e, q), q, e)
  {
    LitFails(s, e, "+");
  }

  /** A run block reads back as its run tree, for every tree of the grammar's shape. */
  lemma RunRead(s: string, i: nat, q: StageQueue)
    requires SerialForm(q, true) && PlainNames(q)
    requires MatchAt(s, i, "run{" + Render(q) + "}")
    ensures Yields(ParseRun(s, i), q, i + |Render(q)| + 5)
  {
    var r := Render(q);
    var e := i + 4 + |r|;
    RunText(s, i, r);
    assert Yields(ParseSerial(s, i + 4), q, e) by {
      SerialPrefix(s, i + 4, q, true);
      SerialEnds(s, e, q);
    }
    RunSteps(s, i, q, e);
  }

  lemma RunText(s: string, i: nat, r: string)
    requires MatchAt(s, i, "run{" + r + "}")
    ensures var e := i + 4 + |r|;
      e < |s| && MatchAt(s, i + 4, r) && ElementEnds(s, e) && QueueEnds(s, e) &&
      Lit(s, i, "Bpipe.run").None? && Lit(s, i, "run") == Some(i + 3) &&
      Lit(s, i + 3, "{") == Some(i + 4) && Lit(s, e, "}") == Some(e + 1)
  {
    MatchAtConcat(s, i, "run{" + r, "}");
    MatchAtConcat(s, i, "run{", r);
    assert "run{" == "run" + "{";
    MatchAtConcat(s, i, "run", "{");
    MatchAtIndex(s, i, "run", 0);
    LitFails(s, i, "Bpipe.run");
    LitHere(s, i, "run");
    LitHere(s, i + 3, "{");
    var e := i + 4 + |r|;
    MatchAtIndex(s, e, "}", 0);
    LitHere(s, e, "}");
  }

  lemma RunSteps(s: string, i: nat, q: StageQueue, e: nat)
    requires i + 4 <= e < |s|
    requires Lit(s, i, "Bpipe.run").None? && Lit(s, i, "run") == Some(i + 3)
    requires Lit(s, i + 3, "{") == Some(i + 4)
    requires Yields(ParseSerial(s, i + 4), q, e) && Lit(s, e, "}") == Some(e + 1)
    ensures Yields(ParseRun(s, i), q, e + 1)
  {
  }

  /** Text that starts with `run{` declares nothing before its run block. */
  lemma NoItemBeforeRun(s: string, i: nat, d: Declarations)
    requires MatchAt(s, i, "run{")
    ensures Gives(Items(s, i, d), d, i)
  {
    assert ParseItem(s, i).None? by {
      assert "run{" == "run" + "{";
      MatchAtConcat(s, i, "run", "{");
      MatchAtIndex(s, i, "run", 0);
      MatchAtIndex(s, i + 3, "{", 0);
      LitFails(s, i, "{");
      NameReadsBack(s, i, "run");
      LitFails(s, i + 3, "=");
      LitFails(s, i, "about");
      NoItemSteps(s, i, "run", i + 3);
    }
  }

  /** A name followed by neither `=` nor a block starts no item. */
  lemma NoItemSteps(s: string, i: nat, n: string, m: nat)
    requires i <= m <= |s|
    requires Lit(s, i, "{").None? && Yields(ParseUnquoted(s, i), n, m)
    requires Lit(s, m, "=").None? && Lit(s, i, "about").None?
    ensures ParseItem(s, i).None?
  {
    NoGeneratorAtName(s, i, n, m);
    NoAssignmentAtName(s, i, n, m);
    NoItemWithout(s, i);
  }

  lemma NoGeneratorAtName(s: string, i: nat, n: string, m: nat)
    requires i <= m <= |s|
    requires Lit(s, i, "{").None? && Yields(ParseUnquoted(s, i), n, m)
    requires Lit(s, m, "=").None?
    ensures ParseGenerator(s, i).None?
  {
    NoBlockWithoutBrace(s, i);
  }

  lemma NoAssignmentAtName(s: string, i: nat, n: string, m: nat)
    requires i <= m <= |s|
    requires Yields(ParseUnquoted(s, i), n, m) && Lit(s, m, "=").None?
    ensures ParseVarAssignment(s, i).None?
  {
  }

  lemma NoItemWithout(s: string, i: nat)
    requires i <= |s|
    requires ParseGenerator(s, i).None? && ParseVarAssignment(s, i).None? && Lit(s, i, "about").None?
    ensures ParseItem(s, i).None?
  {
  }

  /** A value that a quoted string can carry: non-empty ASCII with no `"`. */
  predicate Quotable(v: string) {
    v != [] && forall k | 0 <= k < |v| :: v[k] != '"' && IsAscii(v[k])
  }

  function QuotedText(v: string): string {
    "\"" + v + "\""
  }

  /** Stage statements rendered as text: one `exec "..."` per line. */
  function ExecText(lines: seq<string>): string {
    if lines == [] then "" else "exec" + QuotedText(lines[0]) + ExecText(lines[1..])
  }

  function ForwardText(forward: bool): string {
    if forward then "forward" + " input" else ""
  }

  function BlockText(lines: seq<string>, forward: bool): string {
    "{" + ExecText(lines) + ForwardText(forward) + "}"
  }

  /** A stage a script can define by name: its name is alphanumeric and it runs something. */
  predicate PlainStage(st: Stage) {
    AlnumName(st.name) && st.execLines != [] &&
    forall k | 0 <= k < |st.execLines| :: Quotable(st.execLines[k])
  }

  function StageText(st: Stage): string {
    st.name + "=" + BlockText(st.execLines, st.forwardInput)
  }

  function StagesText(stages: seq<Stage>): string {
    if stages == [] then "" else StageText(stages[0]) + StagesText(stages[1..])
  }

  function AssignmentText(a: (string, string)): string {
    a.0 + "=" + QuotedText(a.1)
  }

  function AssignmentsText(assignments: seq<(string, string)>): string {
    if assignments == [] then "" else AssignmentText(assignments[0]) + AssignmentsText(assignments[1..])
  }

  /** A whole script rendered as text: stage definitions, then globals, then the run block. */
  function ScriptText(sc: Script): string {
    StagesText(sc.stages) + AssignmentsText(sc.assignments) + ("run{" + Render(sc.run) + "}")
  }

  predicate PlainScript(sc: Script) {
    (forall k | 0 <= k < |sc.stages| :: PlainStage(sc.stages[k])) &&
    (forall k | 0 <= k < |sc.assignments| ::
      AlnumName(sc.assignments[k].0) && Quotable(sc.assignments[k].1)) &&
    SerialForm(sc.run, true) && PlainNames(sc.run)
  }

  /** What follows a statement, other than `;` or a space. */
  predicate StatementEnds(s: string, e: nat) {
    e < |s| && s[e] != ';' && !IsSpace(s[e])
  }

  lemma ExecStatementRead(s: string, i: nat, l: string, e: nat)
    requires Quotable(l) && MatchAt(s, i, "exec" + QuotedText(l))
    requires e == i + |l| + 6 && StatementEnds(s, e)
    ensures Yields(ParseStatement(s, i), ExecStatement(l), e)
  {
    assert Yields(ParseExec(s, i), l, e) by {
      MatchAtConcat(s, i, "exec", QuotedText(l));
      LitHere(s, i, "exec");
      QuotedReadsBack(s, i + 4, l);
      LitFails(s, e, ";");
    }
    assert Lit(s, i, "doc").None? && Lit(s, i, "msg").None? by {
      MatchAtConcat(s, i, "exec", QuotedText(l));
      MatchAtIndex(s, i, "exec", 0);
      LitFails(s, i, "doc");
      LitFails(s, i, "msg");
    }
    ExecSteps(s, i, l, e);
  }

  lemma ExecSteps(s: string, i: nat, l: string, e: nat)
    requires i < e <= |s|
    requires Lit(s, i, "doc").None? && Lit(s, i, "msg").None?
    requires Yields(ParseExec(s, i), l, e)
    ensures Yields(ParseStatement(s, i), ExecStatement(l), e)
  {
  }

  /** What may follow the statements of a block: `forward input` or the closing brace. */
  predicate StatementsEnd(s: string, e: nat) {
    e < |s| && (s[e] == 'f' || s[e] == '}')
  }

  lemma NoStatement(s: string, i: nat)
    requires StatementsEnd(s, i)
    ensures ParseStatement(s, i).None?
  {
    LitFails(s, i, "doc");
    LitFails(s, i, "msg");
    LitFails(s, i, "exec");
  }

  lemma StatementsStep(s: string, i: nat, p: Parsed<Statement>, acc: seq<string>)
    requires i <= |s| && ParseStatement(s, i) == Some(p)
    ensures Same(Statements(s, i, acc), Statements(s, p.end, AddStatement(p.value, acc)))
  {
  }

  /** Where the first statement of rendered lines ends, and what follows it. */
  lemma ExecTextFirst(s: string, i: nat, lines: seq<string>, e: nat, end: nat)
    requires lines != [] && forall k | 0 <= k < |lines| :: Quotable(lines[k])
    requires MatchAt(s, i, ExecText(lines)) && end == i + |ExecText(lines)| && StatementsEnd(s, end)
    requires e == i + |lines[0]| + 6
    ensures Quotable(lines[0]) && forall k | 0 <= k < |lines[1..]| :: Quotable(lines[1..][k])
    ensures MatchAt(s, i, "exec" + QuotedText(lines[0])) && StatementEnds(s, e)
    ensures MatchAt(s, e, ExecText(lines[1..])) && end == e + |ExecText(lines[1..])|
  {
    ExecTextCons(lines);
    MatchAtSplit(s, i, "exec" + QuotedText(lines[0]), ExecText(lines[1..]), e);
    if lines[1..] != [] {
      MatchAtIndex(s, e, ExecText(lines[1..]), 0);
    }
    forall k | 0 <= k < |lines[1..]| ensures Quotable(lines[1..][k]) {
      assert lines[1..][k] == lines[k + 1];
    }
  }

  lemma ExecTextCons(lines: seq<string>)
    requires lines != []
    ensures ExecText(lines) == ("exec" + QuotedText(lines[0])) + ExecText(lines[1..])
    ensures |"exec" + QuotedText(lines[0])| == |lines[0]| + 6
    ensures lines[1..] != [] ==> ExecText(lines[1..])[0] == 'e'
  {
  }

  /** A match of `a + b` is a match of `a` followed by a match of `b`. */
  lemma MatchAtSplit(s: string, i: nat, a: string, b: string, e: nat)
    requires MatchAt(s, i, a + b) && e == i + |a|
    ensures MatchAt(s, i, a) && MatchAt(s, e, b) && e + |b| <= |s|
  {
    MatchAtConcat(s, i, a, b);
  }

  /** The statements of a rendered block yield its exec lines, in order. */
  lemma {:induction false} StatementsRead(s: string, i: nat, lines: seq<string>, acc: seq<string>, end: nat)
    requires forall k | 0 <= k < |lines| :: Quotable(lines[k])
    requires MatchAt(s, i, ExecText(lines)) && end == i + |ExecText(lines)| && StatementsEnd(s, end)
    ensures Gives(Statements(s, i, acc), acc + lines, end)
    decreases lines
  {
    if lines == [] {
      NoStatement(s, i);
      AppendNothing(acc, lines);
    } else {
      var l := lines[0];
      var tail := lines[1..];
      var e := i + |l| + 6;
      ExecTextFirst(s, i, lines, e, end);
      AppendFirst(acc, lines);
      StatementsRead(s, e, tail, acc + [l], end);
      ExecThenStatements(s, i, l, acc, e, acc + lines, end);
    }
  }

  /** An exec statement, then statements that give `v` from it on: the statements give `v`. */
  lemma ExecThenStatements(s: string, i: nat, l: string, acc: seq<string>, e: nat, v: seq<string>, end: nat)
    requires Quotable(l) && MatchAt(s, i, "exec" + QuotedText(l))
    requires e == i + |l| + 6 && StatementEnds(s, e)
    requires Gives(Statements(s, e, acc + [l]), v, end)
    ensures Gives(Statements(s, i, acc), v, end)
  {
    ExecStatementRead(s, i, l, e);
    StatementsStep(s, i, Parsed(ExecStatement(l), e), acc);
  }

  /** Appending the first element and then the rest is appending the whole. */
  lemma AppendNothing<T>(xs: seq<T>, ys: seq<T>)
    ensures ys == [] ==> xs + ys == xs
    ensures xs == [] ==> xs + ys == ys
  {
  }

  lemma AppendFirst<T>(acc: seq<T>, xs: seq<T>)
    requires xs != []
    ensures acc + [xs[0]] + xs[1..] == acc + xs
  {
    assert xs == [xs[0]] + xs[1..];
  }

  lemma ForwardRead(s: string, i: nat, forward: bool, e: nat)
    requires MatchAt(s, i, ForwardText(forward) + "}") && e == i + |ForwardText(forward)|
    ensures Gives(ParseForward(s, i), forward, e)
  {
    MatchAtConcat(s, i, ForwardText(forward), "}");
    MatchAtIndex(s, e, "}", 0);
    if forward {
      MatchAtConcat(s, i, "forward", " input");
      assert " input" == " " + "input";
      MatchAtConcat(s, i + 7, " ", "input");
      MatchAtIndex(s, i + 7, " ", 0);
      MatchAtIndex(s, i + 8, "input", 0);
      LitHere(s, i, "forward");
      assert Skip(s, i + 8) == i + 8;
      assert Skip(s, i + 7) == i + 8;
      LitFails(s, e, ";");
    } else {
      LitFails(s, i, "forward");
    }
  }

  /** Where the parts of a rendered block stand. */
  lemma BlockTextParts(s: string, i: nat, lines: seq<string>, forward: bool, e1: nat, e2: nat)
    requires lines != [] && MatchAt(s, i, BlockText(lines, forward))
    requires e1 == i + 1 + |ExecText(lines)| && e2 == e1 + |ForwardText(forward)|
    ensures e2 + 1 == i + |BlockText(lines, forward)| <= |s|
    ensures Lit(s, i, "{") == Some(i + 1) && MatchAt(s, i + 1, ExecText(lines))
    ensures StatementsEnd(s, e1) && MatchAt(s, e1, ForwardText(forward) + "}")
    ensures Lit(s, e2, "}") == Some(e2 + 1)
  {
    var x := ExecText(lines);
    var f := ForwardText(forward);
    MatchAtConcat(s, i, "{" + x + f, "}");
    MatchAtConcat(s, i, "{" + x, f);
    MatchAtConcat(s, i, "{", x);
    MatchAtConcat(s, e1, f, "}");
    LitHere(s, i, "{");
    if forward {
      MatchAtIndex(s, e1, f, 0);
    } else {
      MatchAtIndex(s, e1, "}", 0);
    }
    MatchAtIndex(s, e2, "}", 0);
    LitHere(s, e2, "}");
  }

  lemma BlockSteps(s: string, i: nat, lines: seq<string>, e1: nat, forward: bool, e2: nat)
    requires i + 1 < e1 <= e2 < |s|
    requires Lit(s, i, "{") == Some(i + 1) && Gives(Statements(s, i + 1, []), lines, e1)
    requires Gives(ParseForward(s, e1), forward, e2) && Lit(s, e2, "}") == Some(e2 + 1)
    ensures Yields(ParseBlock(s, i), Stage("", lines, forward), e2 + 1)
  {
    var body := Statements(s, i + 1, []);
    var fwd := ParseForward(s, body.end);
    assert body.end == e1 && fwd.end == e2;
  }

  /** Rendered exec statements read back, in order, into an empty list of lines. */
  lemma StatementsReadFresh(s: string, i: nat, lines: seq<string>, e: nat)
    requires lines != [] && forall k | 0 <= k < |lines| :: Quotable(lines[k])
    requires MatchAt(s, i, ExecText(lines)) && e == i + |ExecText(lines)| && StatementsEnd(s, e)
    ensures i < e && Gives(Statements(s, i, []), lines, e)
  {
    StatementsRead(s, i, lines, [], e);
    AppendNothing([], lines);
  }

  /** A rendered stage block reads back as an unnamed stage with its lines and flag. */
  lemma BlockRead(s: string, i: nat, lines: seq<string>, forward: bool, e: nat)
    requires lines != [] && forall k | 0 <= k < |lines| :: Quotable(lines[k])
    requires MatchAt(s, i, BlockText(lines, forward)) && e == i + |BlockText(lines, forward)|
    ensures Yields(ParseBlock(s, i), Stage("", lines, forward), e)
  {
    var e1 := i + 1 + |ExecText(lines)|;
    var e2 := e1 + |ForwardText(forward)|;
    BlockTextParts(s, i, lines, forward, e1, e2);
    StatementsReadFresh(s, i + 1, lines, e1);
    ForwardRead(s, e1, forward, e2);
    BlockSteps(s, i, lines, e1, forward, e2);
  }

  /** What follows every rendered item: the first letter of a name or of `run`. */
  predicate ItemEnds(s: string, e: nat) {
    e < |s| && IsAlnum(s[e])
  }

  /** Where the parts of `name = ...` stand. */
  lemma NamedText(s: string, i: nat, n: string, body: string, m: nat, j: nat)
    requires AlnumName(n) && body != [] && MatchAt(s, i, n + "=" + body)
    requires m == i + |n| && j == m + 1
    ensures MatchAt(s, j, body) && j + |body| <= |s|
    ensures Lit(s, i, "{").None? && Yields(ParseUnquoted(s, i), n, m)
    ensures Lit(s, m, "=") == Some(j)
  {
    MatchAtConcat(s, i, n + "=", body);
    MatchAtConcat(s, i, n, "=");
    MatchAtIndex(s, i, n, 0);
    MatchAtIndex(s, m, "=", 0);
    LitFails(s, i, "{");
    NameReadsBack(s, i, n);
    LitHere(s, m, "=");
  }

  lemma StageItemSteps(s: string, i: nat, n: string, b: Stage, m: nat, j: nat, e: nat)
    requires i <= m < j < e <= |s|
    requires Lit(s, i, "{").None? && Yields(ParseUnquoted(s, i), n, m)
    requires Lit(s, m, "=") == Some(j)
    requires Yields(ParseBlock(s, j), b, e)
    ensures Yields(ParseItem(s, i), StageItem(Stage(n, b.execLines, b.forwardInput)), e)
  {
    NamedGenerator(s, i, n, b, m, j, e);
    ItemFromGenerator(s, i, Stage(n, b.execLines, b.forwardInput), e);
  }

  lemma NamedGenerator(s: string, i: nat, n: string, b: Stage, m: nat, j: nat, e: nat)
    requires i <= m < j < e <= |s|
    requires Lit(s, i, "{").None? && Yields(ParseUnquoted(s, i), n, m)
    requires Lit(s, m, "=") == Some(j)
    requires Yields(ParseBlock(s, j), b, e)
    ensures Yields(ParseGenerator(s, i), Stage(n, b.execLines, b.forwardInput), e)
  {
    NoBlockWithoutBrace(s, i);
    assert Yields(ParseGenerator(s, j), b, e);
  }

  lemma ItemFromGenerator(s: string, i: nat, st: Stage, e: nat)
    requires i <= |s| && Yields(ParseGenerator(s, i), st, e)
    ensures Yields(ParseItem(s, i), StageItem(st), e)
  {
  }

  lemma StageItemRead(s: string, i: nat, st: Stage, e: nat)
    requires PlainStage(st) && MatchAt(s, i, StageText(st)) && e == i + |StageText(st)|
    ensures Yields(ParseItem(s, i), StageItem(st), e)
  {
    var body := BlockText(st.execLines, st.forwardInput);
    var m := i + |st.name|;
    var j := m + 1;
    NamedText(s, i, st.name, body, m, j);
    BlockRead(s, j, st.execLines, st.forwardInput, e);
    StageItemSteps(s, i, st.name, Stage("", st.execLines, st.forwardInput), m, j, e);
  }

  lemma AssignmentItemSteps(s: string, i: nat, n: string, v: string, m: nat, j: nat, e: nat)
    requires i <= m < j < e <= |s|
    requires Lit(s, i, "{").None? && Yields(ParseUnquoted(s, i), n, m)
    requires Lit(s, m, "=") == Some(j)
    requires ParseGenerator(s, j).None?
    requires Yields(ParseQuoted(s, j), v, e)
    ensures Yields(ParseItem(s, i), VarItem(n, v), e)
  {
    GeneratorFailsAtName(s, i, n, m, j);
    VarAssignmentSteps(s, i, n, v, m, j, e);
    ItemFromAssignment(s, i, n, v, e);
  }

  /** A name followed by `=` and by no stage generator generates no stage. */
  lemma GeneratorFailsAtName(s: string, i: nat, n: string, m: nat, j: nat)
    requires i <= m < j <= |s|
    requires Lit(s, i, "{").None? && Yields(ParseUnquoted(s, i), n, m)
    requires Lit(s, m, "=") == Some(j)
    requires ParseGenerator(s, j).None?
    ensures ParseGenerator(s, i).None?
  {
    NoBlockWithoutBrace(s, i);
  }

  lemma NoBlockWithoutBrace(s: string, i: nat)
    requires i <= |s| && Lit(s, i, "{").None?
    ensures ParseBlock(s, i).None?
  {
  }

  lemma VarAssignmentSteps(s: string, i: nat, n: string, v: string, m: nat, j: nat, e: nat)
    requires i <= m < j < e <= |s|
    requires Yields(ParseUnquoted(s, i), n, m)
    requires Lit(s, m, "=") == Some(j)
    requires Yields(ParseQuoted(s, j), v, e)
    ensures Yields(ParseVarAssignment(s, i), (n, v), e)
  {
  }

  lemma ItemFromAssignment(s: string, i: nat, n: string, v: string, e: nat)
    requires i <= |s|
    requires ParseGenerator(s, i).None? && Yields(ParseVarAssignment(s, i), (n, v), e)
    ensures Yields(ParseItem(s, i), VarItem(n, v), e)
  {
  }

  /** A quoted string starts neither a block nor a name. */
  lemma NoGeneratorAtQuote(s: string, j: nat)
    requires j < |s| && s[j] == '"'
    ensures ParseGenerator(s, j).None?
  {
    LitFails(s, j, "{");
    assert Skip(s, j) == j;
    MismatchAt(s, j, "\\\"");
    MismatchAt(s, j, "\\\\");
    assert ParseUnquoted(s, j).None?;
  }

  lemma AssignmentItemRead(s: string, i: nat, a: (string, string), e: nat)
    requires AlnumName(a.0) && Quotable(a.1) && MatchAt(s, i, AssignmentText(a)) && e == i + |AssignmentText(a)|
    ensures Yields(ParseItem(s, i), VarItem(a.0, a.1), e)
  {
    var n := a.0;
    var m := i + |n|;
    var j := m + 1;
    NamedText(s, i, n, QuotedText(a.1), m, j);
    assert ParseGenerator(s, j).None? by {
      MatchAtIndex(s, j, QuotedText(a.1), 0);
      NoGeneratorAtQuote(s, j);
    }
    QuotedReadsBack(s, j, a.1);
    AssignmentItemSteps(s, i, n, a.1, m, j, e);
  }


  /** A rendered global assignment followed by another item is declared, and the items go on after it. */
  lemma AssignmentItemStep(s: string, i: nat, a: (string, string), d: Declarations, e: nat)
    requires AlnumName(a.0) && Quotable(a.1) && MatchAt(s, i, AssignmentText(a))
    requires e == i + |AssignmentText(a)| && ItemEnds(s, e)
    ensures Same(Items(s, i, d), Items(s, e, Declarations(d.stages, d.assignments + [a])))
  {
    AssignmentItemRead(s, i, a, e);
    ItemsStep(s, i, Parsed(VarItem(a.0, a.1), e), d);
  }

  /** A rendered stage definition followed by another item is declared, and the items go on after it. */
  lemma StageItemStep(s: string, i: nat, st: Stage, d: Declarations, e: nat)
    requires PlainStage(st) && MatchAt(s, i, StageText(st))
    requires e == i + |StageText(st)| && ItemEnds(s, e)
    ensures Same(Items(s, i, d), Items(s, e, Declarations(d.stages + [st], d.assignments)))
  {
    StageItemRead(s, i, st, e);
    ItemsStep(s, i, Parsed(StageItem(st), e), d);
  }

  lemma ItemsStep(s: string, i: nat, p: Parsed<Item>, d: Declarations)
    requires i <= |s| && ParseItem(s, i) == Some(p) && ItemEnds(s, p.end)
    ensures Same(Items(s, i, d), Items(s, p.end, Declare(p.value, d)))
  {
    LitFails(s, p.end, ";");
  }

  /** Where the first of several rendered items ends, and what follows it. */
  lemma FirstItemText(s: string, i: nat, first: string, rest: string, m: nat, e: nat)
    requires m == i + |first| && e == m + |rest|
    requires MatchAt(s, i, first + rest) && ItemEnds(s, e)
    requires rest == [] || IsAlnum(rest[0])
    ensures MatchAt(s, i, first) && MatchAt(s, m, rest) && ItemEnds(s, m)
  {
    MatchAtConcat(s, i, first, rest);
    if rest != [] {
      MatchAtIndex(s, m, rest, 0);
    }
  }

  lemma StagesTextStart(stages: seq<Stage>)
    requires stages != [] && PlainStage(stages[0])
    ensures StagesText(stages) != [] && IsAlnum(StagesText(stages)[0])
  {
    assert StagesText(stages)[0] == stages[0].name[0];
  }

  lemma AssignmentsTextStart(assignments: seq<(string, string)>)
    requires assignments != [] && AlnumName(assignments[0].0)
    ensures AssignmentsText(assignments) != [] && IsAlnum(AssignmentsText(assignments)[0])
  {
    assert AssignmentsText(assignments)[0] == assignments[0].0[0];
  }

  /** Rendered stage definitions are declared in order. */
  lemma {:induction false} StagesRead(s: string, i: nat, stages: seq<Stage>, d: Declarations, end: nat, d2: Declarations)
    requires forall k | 0 <= k < |stages| :: PlainStage(stages[k])
    requires end == i + |StagesText(stages)| && MatchAt(s, i, StagesText(stages)) && ItemEnds(s, end)
    requires d2 == Declarations(d.stages + stages, d.assignments)
    ensures Same(Items(s, i, d), Items(s, end, d2))
    decreases stages
  {
    if stages == [] {
      AppendNothing(d.stages, stages);
      assert end == i && d2 == d;
    } else {
      var st := stages[0];
      var tail := stages[1..];
      var e := i + |StageText(st)|;
      var dm := Declarations(d.stages + [st], d.assignments);
      StagesSplit(s, i, stages, e, end);
      AppendFirst(d.stages, stages);
      assert d2 == Declarations(dm.stages + tail, dm.assignments);
      StagesRead(s, e, tail, dm, end, d2);
      StageThenItems(s, i, st, d, e, dm, Items(s, end, d2));
    }
  }

  /** A rendered stage definition, then items that reach `p` from what it declares: the items reach `p`. */
  lemma StageThenItems(s: string, i: nat, st: Stage, d: Declarations, e: nat, dm: Declarations, p: Parsed<Declarations>)
    requires PlainStage(st) && MatchAt(s, i, StageText(st))
    requires e == i + |StageText(st)| && ItemEnds(s, e)
    requires dm == Declarations(d.stages + [st], d.assignments) && Same(Items(s, e, dm), p)
    ensures Same(Items(s, i, d), p)
  {
    StageItemStep(s, i, st, d, e);
  }

  /** Where the first stage definition and the rest of them stand. */
  lemma StagesSplit(s: string, i: nat, stages: seq<Stage>, m: nat, end: nat)
    requires stages != [] && forall k | 0 <= k < |stages| :: PlainStage(stages[k])
    requires end == i + |StagesText(stages)| && MatchAt(s, i, StagesText(stages)) && ItemEnds(s, end)
    requires m == i + |StageText(stages[0])|
    ensures PlainStage(stages[0]) && forall k | 0 <= k < |stages[1..]| :: PlainStage(stages[1..][k])
    ensures MatchAt(s, i, StageText(stages[0])) && ItemEnds(s, m)
    ensures MatchAt(s, m, StagesText(stages[1..])) && end == m + |StagesText(stages[1..])|
  {
    var tail := stages[1..];
    var first := StageText(stages[0]);
    var rest := StagesText(tail);
    assert StagesText(stages) == first + rest;
    PlainTail(stages);
    if tail != [] {
      StagesTextStart(tail);
    }
    FirstItemText(s, i, first, rest, m, end);
  }

  lemma PlainTail(stages: seq<Stage>)
    requires stages != [] && forall k | 0 <= k < |stages| :: PlainStage(stages[k])
    ensures PlainStage(stages[0]) && forall k | 0 <= k < |stages[1..]| :: PlainStage(stages[1..][k])
  {
    forall k | 0 <= k < |stages[1..]| ensures PlainStage(stages[1..][k]) {
      assert stages[1..][k] == stages[k + 1];
    }
  }

  /** Rendered global assignments are declared in order. */
  lemma {:induction false} AssignmentsRead(s: string, i: nat, assignments: seq<(string, string)>, d: Declarations, end: nat, d2: Declarations)
    requires forall k | 0 <= k < |assignments| :: AlnumName(assignments[k].0) && Quotable(assignments[k].1)
    requires end == i + |AssignmentsText(assignments)| && MatchAt(s, i, AssignmentsText(assignments)) && ItemEnds(s, end)
    requires d2 == Declarations(d.stages, d.assignments + assignments)
    ensures Same(Items(s, i, d), Items(s, end, d2))
    decreases assignments
  {
    if assignments == [] {
      AppendNothing(d.assignments, assignments);
      assert end == i && d2 == d;
    } else {
      var a := assignments[0];
      var tail := assignments[1..];
      var e := i + |AssignmentText(a)|;
      var dm := Declarations(d.stages, d.assignments + [a]);
      AssignmentsSplit(s, i, assignments, e, end);
      AppendFirst(d.assignments, assignments);
      assert d2 == Declarations(dm.stages, dm.assignments + tail);
      AssignmentsRead(s, e, tail, dm, end, d2);
      AssignmentThenItems(s, i, a, d, e, dm, Items(s, end, d2));
    }
  }

  /** A rendered global assignment, then items that reach `p` from what it declares: the items reach `p`. */
  lemma AssignmentThenItems(s: string, i: nat, a: (string, string), d: Declarations, e: nat, dm: Declarations, p: Parsed<Declarations>)
    requires AlnumName(a.0) && Quotable(a.1) && MatchAt(s, i, AssignmentText(a))
    requires e == i + |AssignmentText(a)| && ItemEnds(s, e)
    requires dm == Declarations(d.stages, d.assignments + [a]) && Same(Items(s, e, dm), p)
    ensures Same(Items(s, i, d), p)
  {
    AssignmentItemStep(s, i, a, d, e);
  }

  /** Where the first global assignment and the rest of them stand. */
  lemma AssignmentsSplit(s: string, i: nat, assignments: seq<(string, string)>, m: nat, end: nat)
    requires assignments != [] && forall k | 0 <= k < |assignments| :: AlnumName(assignments[k].0) && Quotable(assignments[k].1)
    requires end == i + |AssignmentsText(assignments)| && MatchAt(s, i, AssignmentsText(assignments)) && ItemEnds(s, end)
    requires m == i + |AssignmentText(assignments[0])|
    ensures AlnumName(assignments[0].0) && Quotable(assignments[0].1)
    ensures forall k | 0 <= k < |assignments[1..]| :: AlnumName(assignments[1..][k].0) && Quotable(assignments[1..][k].1)
    ensures MatchAt(s, i, AssignmentText(assignments[0])) && ItemEnds(s, m)
    ensures MatchAt(s, m, AssignmentsText(assignments[1..])) && end == m + |AssignmentsText(assignments[1..])|
  {
    var tail := assignments[1..];
    var first := AssignmentText(assignments[0]);
    var rest := AssignmentsText(tail);
    assert AssignmentsText(assignments) == first + rest;
    forall k | 0 <= k < |tail| ensures AlnumName(tail[k].0) && Quotable(tail[k].1) {
      assert tail[k] == assignments[k + 1];
    }
    if tail != [] {
      AssignmentsTextStart(tail);
    }
    FirstItemText(s, i, first, rest, m, end);
  }


  lemma FileSteps(s: string, d: Declarations, k: nat, q: StageQueue)
    requires k < |s|
    requires Gives(Items(s, 0, Declarations([], [])), d, k)
    requires Yields(ParseRun(s, k), q, |s|)
    ensures Yields(ParseFile(s), Script(d.stages, d.assignments, q), |s|)
  {
  }

  /** Where the three parts of a rendered script stand. */
  lemma ScriptTextParts(sc: Script, s: string, m: nat, k: nat)
    requires PlainScript(sc) && s == ScriptText(sc)
    requires m == |StagesText(sc.stages)| && k == m + |AssignmentsText(sc.assignments)|
    ensures MatchAt(s, 0, StagesText(sc.stages)) && ItemEnds(s, m)
    ensures MatchAt(s, m, AssignmentsText(sc.assignments)) && ItemEnds(s, k)
    ensures MatchAt(s, k, "run{" + Render(sc.run) + "}") && MatchAt(s, k, "run{")
    ensures |s| == k + |Render(sc.run)| + 5
  {
    var st := StagesText(sc.stages);
    var at := AssignmentsText(sc.assignments);
    var r := Render(sc.run);
    var rt := "run{" + r + "}";
    assert s == st + at + rt;
    MatchAtConcat(s, 0, st + at, rt);
    MatchAtConcat(s, 0, st, at);
    MatchAtConcat(s, m, at, rt);
    assert rt == "run{" + (r + "}");
    MatchAtConcat(s, k, "run{", r + "}");
    MatchAtIndex(s, k, rt, 0);
    if at != [] {
      AssignmentsTextStart(sc.assignments);
      MatchAtIndex(s, m, at, 0);
    }
  }

  /**
   * Every script of the grammar's shape reads back from its rendering: the stages
   * and the globals in order, and the run tree, with all of the text consumed.
   */
  lemma ScriptRoundTrip(sc: Script)
    requires PlainScript(sc)
    ensures Yields(ParseFile(ScriptText(sc)), sc, |ScriptText(sc)|)
  {
    ScriptDeclarationsRead(sc);
    ScriptRunPart(sc);
    FileRead(ScriptText(sc), sc, |StagesText(sc.stages)| + |AssignmentsText(sc.assignments)|);
  }

  /** A file whose items declare the script's parts and whose run block closes it reads back as the script. */
  lemma FileRead(s: string, sc: Script, k: nat)
    requires SerialForm(sc.run, true) && PlainNames(sc.run)
    requires Gives(Items(s, 0, Declarations([], [])), Declarations(sc.stages, sc.assignments), k)
    requires MatchAt(s, k, "run{" + Render(sc.run) + "}") && |s| == k + |Render(sc.run)| + 5
    ensures Yields(ParseFile(s), sc, |s|)
  {
    RunRead(s, k, sc.run);
    FileSteps(s, Declarations(sc.stages, sc.assignments), k, sc.run);
  }

  /** Where the run block of a rendered script stands. */
  lemma ScriptRunPart(sc: Script)
    requires PlainScript(sc)
    ensures var k := |StagesText(sc.stages)| + |AssignmentsText(sc.assignments)|;
      MatchAt(ScriptText(sc), k, "run{" + Render(sc.run) + "}") && |ScriptText(sc)| == k + |Render(sc.run)| + 5
  {
    var m := |StagesText(sc.stages)|;
    ScriptTextParts(sc, ScriptText(sc), m, m + |AssignmentsText(sc.assignments)|);
  }

  /** The items of a rendered script declare its stages and its globals, and stop where the run block starts. */
  lemma ScriptDeclarationsRead(sc: Script)
    requires PlainScript(sc)
    ensures Gives(Items(ScriptText(sc), 0, Declarations([], [])), Declarations(sc.stages, sc.assignments),
                  |StagesText(sc.stages)| + |AssignmentsText(sc.assignments)|)
  {
    var m := |StagesText(sc.stages)|;
    var k := m + |AssignmentsText(sc.assignments)|;
    ScriptTextParts(sc, ScriptText(sc), m, k);
    DeclarationsRead(ScriptText(sc), sc, m, k);
  }

  /** Rendered stage definitions, then rendered globals, then `run{`: the items declare them all, in order. */
  lemma DeclarationsRead(s: string, sc: Script, m: nat, k: nat)
    requires PlainScript(sc)
    requires m == |StagesText(sc.stages)| && MatchAt(s, 0, StagesText(sc.stages)) && ItemEnds(s, m)
    requires k == m + |AssignmentsText(sc.assignments)| && MatchAt(s, m, AssignmentsText(sc.assignments)) && ItemEnds(s, k)
    requires MatchAt(s, k, "run{")
    ensures Gives(Items(s, 0, Declarations([], [])), Declarations(sc.stages, sc.assignments), k)
  {
    var d1 := Declarations(sc.stages, []);
    var d2 := Declarations(sc.stages, sc.assignments);
    AppendNothing([], sc.stages);
    AppendNothing([], sc.assignments);
    StagesRead(s, 0, sc.stages, Declarations([], []), m, d1);
    AssignmentsRead(s, m, sc.assignments, d1, k, d2);
    NoItemBeforeRun(s, k, d2);
  }

  // ---------------------------------------------------------------- what the parser builds

  /** The names `unquoted_string` reads are made of letters, digits, `"` and `\`: never `$`. */
  lemma {:induction false} NameTailDollarFree(s: string, i: nat, acc: string)
    requires i <= |s| && '$' !in acc
    ensures '$' !in NameTail(s, i, acc).value
    decreases |s| - i
  {
    match ParseNameItem(s, i)
    case None =>
    case Some(p) =>
      NameItemDollarFree(s, i);
      NameTailDollarFree(s, p.end, ApplyItem(p.value, acc));
  }

  lemma NameItemDollarFree(s: string, i: nat)
    requires i <= |s| && ParseNameItem(s, i).Some?
    ensures forall acc: string | '$' !in acc :: '$' !in ApplyItem(ParseNameItem(s, i).value.value, acc)
  {
  }

  lemma UnquotedDollarFree(s: string, i: nat)
    requires i <= |s|
    ensures ParseUnquoted(s, i).Some? ==> '$' !in ParseUnquoted(s, i).value.value
  {
    match ParseNameItem(s, i)
    case None =>
    case Some(p) =>
      NameItemDollarFree(s, i);
      NameTailDollarFree(s, p.end, ApplyItem(p.value, ""));
  }

  /** Every tree the queue rules build is unresolved: `$`-free names and no commands. */
  lemma {:induction false} ElementUnresolved(s: string, i: nat)
    requires i <= |s|
    ensures ParseElement(s, i).Some? ==> Unresolved(ParseElement(s, i).value.value)
    decreases |s| - i, 1
  {
    ParallelUnresolved(s, i);
    UnquotedDollarFree(s, i);
  }

  lemma {:induction false} SerialUnresolved(s: string, i: nat)
    requires i <= |s|
    ensures ParseSerial(s, i).Some? ==> Unresolved(ParseSerial(s, i).value.value)
    decreases |s| - i, 2
  {
    ElementUnresolved(s, i);
    match ParseElement(s, i)
    case None =>
    case Some(first) => SerialTailUnresolved(s, first.end, first.value);
  }

  lemma {:induction false} SerialTailUnresolved(s: string, i: nat, acc: StageQueue)
    requires i <= |s| && Unresolved(acc)
    ensures Unresolved(SerialTail(s, i, acc).value)
    decreases |s| - i, 4
  {
    match Lit(s, i, "+")
    case None =>
    case Some(j) =>
      ElementUnresolved(s, j);
      match ParseElement(s, j)
      case None =>
      case Some(e) => SerialTailUnresolved(s, e.end, Serial(acc, e.value));
  }

  lemma {:induction false} ParallelUnresolved(s: string, i: nat)
    requires i <= |s|
    ensures ParseParallel(s, i).Some? ==> Unresolved(ParseParallel(s, i).value.value)
    decreases |s| - i, 0
  {
    match Lit(s, i, "[")
    case None =>
    case Some(j) =>
      QueueUnresolved(s, j);
      match ParseQueue(s, j)
      case None =>
      case Some(first) => ParallelTailUnresolved(s, first.end, first.value);
  }

  lemma {:induction false} ParallelTailUnresolved(s: string, i: nat, acc: StageQueue)
    requires i <= |s| && Unresolved(acc)
    ensures Unresolved(ParallelTail(s, i, acc).value)
    decreases |s| - i, 4
  {
    match Lit(s, i, ",")
    case None =>
    case Some(j) =>
      QueueUnresolved(s, j);
      match ParseQueue(s, j)
      case None =>
      case Some(q) => ParallelTailUnresolved(s, q.end, Parallel(acc, q.value));
  }

  lemma {:induction false} QueueUnresolved(s: string, i: nat)
    requires i <= |s|
    ensures ParseQueue(s, i).Some? ==> Unresolved(ParseQueue(s, i).value.value)
    decreases |s| - i, 3
  {
    ParallelUnresolved(s, i);
    SerialUnresolved(s, i);
  }

  /** The run task of a parsed file is unresolved. */
  lemma FileUnresolved(s: string)
    ensures ParseFile(s).Some? ==> Unresolved(ParseFile(s).value.value.run)
  {
    var items := Items(s, 0, Declarations([], []));
    var k := items.end;
    var kw := match Lit(s, k, "Bpipe.run") case Some(e) => Some(e) case None => Lit(s, k, "run");
    match kw
    case None =>
    case Some(j) =>
      match Lit(s, j, "{")
      case None =>
      case Some(m) => SerialUnresolved(s, m);
  }

  // ---------------------------------------------------------------- what an unquoted string reads

  /** The letters and digits of `t`, in order. */
  function Alnums(t: string): string {
    if t == [] then [] else (if IsAlnum(t[0]) then [t[0]] else []) + Alnums(t[1..])
  }

  /** No backslash stands in `s` from `a` up to `e`. */
  predicate NoBackslash(s: string, a: nat, e: nat) {
    forall k | a <= k < e && k < |s| :: s[k] != '\\'
  }

  /** An item of `unquoted_string` starts at `j`: a letter or digit, `\"` or `\\`. */
  predicate StartsItem(s: string, j: nat) {
    j < |s| && (IsAlnum(s[j]) || (j + 1 < |s| && s[j] == '\\' && (s[j + 1] == '"' || s[j + 1] == '\\')))
  }

  lemma AlnumsFirst(s: string, i: nat, e: nat)
    requires i < e <= |s|
    ensures Alnums(s[i..e]) == (if IsAlnum(s[i]) then [s[i]] else []) + Alnums(s[i + 1..e])
  {
    assert s[i..e][1..] == s[i + 1..e];
  }

  /** The spaces the skipper passes over add no letter or digit. */
  lemma {:induction false} SkippedSpaces(s: string, i: nat, e: nat)
    requires i <= |s| && Skip(s, i) <= e <= |s|
    ensures Alnums(s[i..e]) == Alnums(s[Skip(s, i)..e])
    ensures forall k | i <= k < Skip(s, i) :: IsSpace(s[k])
    decreases |s| - i
  {
    SkipSpaces(s, i);
    if i < Skip(s, i) {
      AlnumsFirst(s, i, e);
      SkippedSpaces(s, i + 1, e);
    }
  }

  /** An item is parsed exactly where, after the skipper, one starts. */
  lemma ItemStarts(s: string, i: nat)
    requires i <= |s|
    ensures ParseNameItem(s, i).Some? <==> StartsItem(s, Skip(s, i))
    ensures ParseNameItem(s, i).Some? ==> var j := Skip(s, i); var p := ParseNameItem(s, i).value;
      match p.value
      case NameChar(c) => IsAlnum(s[j]) && c == s[j] && p.end == j + 1
      case EscapedQuote => s[j] == '\\' && s[j + 1] == '"' && p.end == j + 2
      case EscapedBackslash => s[j] == '\\' && s[j + 1] == '\\' && p.end == j + 2
  {
    var j := Skip(s, i);
    if MatchAt(s, j, "\\\"") {
      assert CharAt(s, j, "\\\"", 0) && CharAt(s, j, "\\\"", 1);
    } else if MatchAt(s, j, "\\\\") {
      assert CharAt(s, j, "\\\\", 0) && CharAt(s, j, "\\\\", 1);
    }
  }

  /** The character an escape whose backslash stands at `p` gives, the text ending at `e`. */
  function Escaped(s: string, p: nat, e: nat): string {
    if p + 1 < e && p + 1 < |s| && s[p + 1] == '"' then "\"" else "\\"
  }

  /**
   * `v` is what `unquoted_string` reads from `i` to `e`, with `acc` read before. The
   * name stops where no item follows. The skipper runs between the items, so spaces
   * inside a name are dropped: without a backslash, the name gains the letters and
   * digits of the text it spans. The two escapes assign the whole attribute, so all
   * that was read before the last backslash is lost: the name is the escaped
   * character (`"` when a `"` follows that backslash, `\` otherwise) followed by the
   * letters and digits after it.
   */
  predicate NameRead(s: string, i: nat, e: nat, acc: string, v: string)
    requires i <= e <= |s|
  {
    !StartsItem(s, Skip(s, e)) &&
    (NoBackslash(s, i, e) ==>
      (forall k | i <= k < e :: IsAlnum(s[k]) || IsSpace(s[k])) && v == acc + Alnums(s[i..e])) &&
    forall p | i <= p < e && s[p] == '\\' && NoBackslash(s, p + 1, e) :: v == Escaped(s, p, e) + Alnums(s[p + 1..e])
  }

  lemma NameCharStep(s: string, i: nat, j: nat, e: nat, acc: string, v: string)
    requires i <= j < e <= |s| && IsAlnum(s[j])
    requires forall k | i <= k < j :: IsSpace(s[k])
    requires Alnums(s[i..e]) == Alnums(s[j..e])
    requires NameRead(s, j + 1, e, acc + [s[j]], v)
    ensures NameRead(s, i, e, acc, v)
  {
    AlnumsFirst(s, j, e);
  }

  lemma EscapeStep(s: string, i: nat, j: nat, e: nat, acc: string, v: string)
    requires i <= j && j + 2 <= e <= |s| && s[j] == '\\' && (s[j + 1] == '"' || s[j + 1] == '\\')
    requires forall k | i <= k < j :: IsSpace(s[k])
    requires NameRead(s, j + 2, e, [s[j + 1]], v)
    ensures NameRead(s, i, e, acc, v)
  {
    assert !NoBackslash(s, i, e) by { assert s[j] == '\\'; }
    forall p | i <= p < e && s[p] == '\\' && NoBackslash(s, p + 1, e)
      ensures v == Escaped(s, p, e) + Alnums(s[p + 1..e])
    {
      if p == j {
        assert s[j + 1] == '"';
        AlnumsFirst(s, j + 1, e);
      } else if p == j + 1 && p + 1 < e {
        assert IsAlnum(s[p + 1]) || IsSpace(s[p + 1]);
      }
    }
  }

  /** What `unquoted_string` reads from `i` on, with `acc` read before: see `NameRead`. */
  lemma {:induction false} NameTailValue(s: string, i: nat, acc: string)
    requires i <= |s|
    ensures NameRead(s, i, NameTail(s, i, acc).end, acc, NameTail(s, i, acc).value)
    decreases |s| - i
  {
    ItemStarts(s, i);
    var r := NameTail(s, i, acc);
    match ParseNameItem(s, i)
    case None =>
      assert r.end == i;
    case Some(item) =>
      var j := Skip(s, i);
      var next := ApplyItem(item.value, acc);
      assert r == NameTail(s, item.end, next);
      NameTailValue(s, item.end, next);
      SkippedSpaces(s, i, r.end);
      match item.value
      case NameChar(c) =>
        NameCharStep(s, i, j, r.end, acc, r.value);
      case EscapedQuote =>
        EscapeStep(s, i, j, r.end, acc, r.value);
      case EscapedBackslash =>
        EscapeStep(s, i, j, r.end, acc, r.value);
  }

  /**
   * `unquoted_string` in characters: it parses exactly where, after spaces, a letter,
   * a digit, `\"` or `\\` stands, and then reads, from the empty attribute, what
   * `NameRead` describes.
   */
  lemma UnquotedValue(s: string, i: nat)
    requires i <= |s|
    ensures ParseUnquoted(s, i).Some? <==> StartsItem(s, Skip(s, i))
    ensures ParseUnquoted(s, i).Some? ==>
      NameRead(s, i, ParseUnquoted(s, i).value.end, [], ParseUnquoted(s, i).value.value)
  {
    ItemStarts(s, i);
    NameTailValue(s, i, "");
    if ParseNameItem(s, i).Some? {
      assert ParseUnquoted(s, i) == Some(NameTail(s, i, ""));
    }
  }

  /** The skipper drops the space inside `a b`: the name read is `ab`. */
  lemma UnquotedDropsSpaces()
    ensures Yields(ParseUnquoted("a b", 0), "ab", 3)
  {
    var s := "a b";
    assert Skip(s, 0) == 0 && Skip(s, 1) == 2 && Skip(s, 3) == 3;
    ItemStarts(s, 0);
    ItemStarts(s, 1);
    ItemStarts(s, 3);
    assert NameTail(s, 3, "ab") == Parsed("ab", 3);
    assert ApplyItem(NameChar('b'), "a") == "ab";
    assert ApplyItem(NameChar('a'), "") == "a";
    assert NameTail(s, 1, "a") == Parsed("ab", 3);
  }

  /** The escape in `ab\"c` discards `ab`: the name read is `"c`. */
  lemma UnquotedEscapeRestarts()
    ensures Yields(ParseUnquoted("ab\\\"c", 0), "\"c", 5)
  {
    var s := "ab\\\"c";
    assert Skip(s, 0) == 0 && Skip(s, 1) == 1 && Skip(s, 2) == 2 && Skip(s, 4) == 4 && Skip(s, 5) == 5;
    ItemStarts(s, 0);
    ItemStarts(s, 1);
    ItemStarts(s, 2);
    ItemStarts(s, 4);
    ItemStarts(s, 5);
    assert NameTail(s, 5, "\"c") == Parsed("\"c", 5);
    assert ApplyItem(NameChar('c'), "\"") == "\"c";
    assert ApplyItem(NameChar('a'), "") == "a" && ApplyItem(NameChar('b'), "a") == "ab";
    assert NameTail(s, 4, "\"") == Parsed("\"c", 5);
    assert NameTail(s, 2, "ab") == Parsed("\"c", 5);
    assert NameTail(s, 1, "a") == Parsed("\"c", 5);
  }

  // ---------------------------------------------------------------- ordered choice commits

  /**
   * `stage_queue` does not backtrack: once a bracketed queue parses as the first member
   * of a parallel queue, a `+` after it cannot make that member a serial queue, so the
   * enclosing bracket fails, and so does the element it begins.
   */
  lemma CommittedParallelRejects(s: string, i: nat, j: nat)
    requires i <= |s| && Lit(s, i, "[") == Some(j)
    requires ParseParallel(s, j).Some?
    requires var e := Skip(s, ParseParallel(s, j).value.end); e < |s| && s[e] == '+'
    ensures ParseParallel(s, i).None? && ParseElement(s, i).None?
  {
    var first := ParseParallel(s, j).value;
    assert ParseQueue(s, j) == Some(first);
    assert !MatchAt(s, Skip(s, first.end), ",") by { assert !CharAt(s, Skip(s, first.end), ",", 0); }
    assert !MatchAt(s, Skip(s, first.end), "]") by { assert !CharAt(s, Skip(s, first.end), "]", 0); }
    var k := Skip(s, i);
    assert s[k] == '[' by { assert CharAt(s, k, "[", 0); }
    ItemStarts(s, i);
  }

  /**
   * A run block whose serial queue starts with a bracket holding a parallel queue and
   * then `+` is rejected, whatever follows: `run{[[a,b]+c]}` does not parse.
   */
  lemma RunRejectsParallelThenPlus(s: string, i: nat, p: StageQueue, t: string)
    requires p.Parallel? && BracketForm(p) && PlainNames(p)
    requires MatchAt(s, i, "run{" + ("[" + Render(p) + "+" + t) + "}")
    ensures ParseRun(s, i).None?
  {
    var r := "[" + Render(p) + "+" + t;
    RunText(s, i, r);
    MatchAtConcat(s, i + 4, "[" + Render(p) + "+", t);
    MatchAtConcat(s, i + 4, "[" + Render(p), "+");
    MatchAtConcat(s, i + 4, "[", Render(p));
    LitHere(s, i + 4, "[");
    ParallelRoundTrip(s, i + 5, p);
    var e := i + 5 + |Render(p)|;
    assert s[e] == '+' by { MatchAtIndex(s, e, "+", 0); }
    assert Skip(s, e) == e;
    CommittedParallelRejects(s, i + 4, i + 5);
  }

  lemma NestedParallelExample()
    ensures ParseRun("run{[[a,b]+c]}", 0).None?
  {
    var p := Parallel(Ref("a", []), Ref("b", []));
    assert Render(p) == "[a,b]";
    var s := "run{[[a,b]+c]}";
    assert s == "run{" + ("[" + Render(p) + "+" + "c]") + "}";
    assert MatchAt(s, 0, s);
    RunRejectsParallelThenPlus(s, 0, p, "c]");
  }
}

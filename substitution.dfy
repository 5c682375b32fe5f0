/**
 * Variable substitution inside one exec template (`StageReference::check`):
 * `$NAME` (the name runs up to the first character that is not alphanumeric or
 * `_`) and `${NAME}` (the name runs up to the first `}`) are replaced by the
 * value bound to NAME.
 */
module Substitution {
  import opened Wrappers
  import opened Text

  type Vars = map<string, string>

  /** `is_var_name_char`. */
  predicate IsVarNameChar(c: char) {
    IsAlnum(c) || c == '_'
  }

  /** No bound value contains `$`, so a substituted value is never expanded again. */
  predicate DollarFreeValues(vars: Vars) {
    forall k | k in vars :: '$' !in vars[k]
  }

  /** Some `}` stands in `t` at or after index `from`. */
  predicate CloseAfter(t: string, from: nat) {
    exists j :: from <= j < |t| && t[j] == '}'
  }

  /** Every `${` of `t` has a `}` somewhere after it, so scanning a braced name stays inside the text. */
  predicate BracesClosed(t: string) {
    forall i | 0 <= i < |t| && PairAt(t, '$', '{', i) :: CloseAfter(t, i + 2)
  }

  /** A `${` of a text with closed braces has its `}`: the search for it finds one. */
  lemma ClosingBraceFound(t: string, d: nat)
    requires BracesClosed(t) && d + 1 < |t| && t[d] == '$' && t[d + 1] == '{'
    ensures IndexOf(t, '}', d + 2).Some?
  {
    assert PairAt(t, '$', '{', d);
    var j :| d + 2 <= j < |t| && t[j] == '}';
  }

  /** `find_if(t.begin() + from, t.end(), is_not_var_name_char)`. */
  function NameEnd(t: string, from: nat): (e: nat)
    requires from <= |t|
    decreases |t| - from
    ensures from <= e <= |t|
    ensures forall k | from <= k < e :: IsVarNameChar(t[k])
    ensures e < |t| ==> !IsVarNameChar(t[e])
  {
    if from == |t| || !IsVarNameChar(t[from]) then from else NameEnd(t, from + 1)
  }

  /** A reference found at a `$`: the variable name and the index just past the reference. */
  datatype Reference = Reference(name: string, end: nat)

  /**
   * The reference whose `$` is at index `d`. A `$` at the very end of the text has
   * the empty name (the byte after it is read as the string's terminating NUL).
   */
  function ParseRef(t: string, d: nat): (r: Reference)
    requires d < |t| && t[d] == '$' && BracesClosed(t)
    ensures d < r.end <= |t|
  {
    if d + 1 < |t| && t[d + 1] == '{' then
      ClosingBraceFound(t, d);
      var close := IndexOf(t, '}', d + 2).value;
      Reference(t[d + 2..close], close + 1)
    else
      var e := NameEnd(t, d + 1);
      Reference(t[d + 1..e], e)
  }

  lemma BracesClosedSuffix(t: string, e: nat)
    requires BracesClosed(t) && e <= |t|
    ensures BracesClosed(t[e..])
  {
    var u := t[e..];
    forall i | PairAt(u, '$', '{', i)
      ensures CloseAfter(u, i + 2)
    {
      assert PairAt(t, '$', '{', e + i);
      var j :| e + i + 2 <= j < |t| && t[j] == '}';
      assert u[j - e] == '}';
    }
  }

  /** `o` with `p` put in front of the text it holds. */
  function Prefixed(p: string, o: Option<string>): Option<string> {
    match o
    case None => None
    case Some(x) => Some(p + x)
  }

  lemma PrefixedTwice(p: string, q: string, o: Option<string>)
    ensures Prefixed(p, Prefixed(q, o)) == Prefixed(p + q, o)
  {
    if o.Some? {
      assert p + (q + o.value) == (p + q) + o.value;
    }
  }

  /**
   * The intended meaning of substitution: one left-to-right pass over the template
   * that replaces each reference by its value and copies the text between
   * references; `None` as soon as a referenced name is unbound.
   */
  function Expand(t: string, vars: Vars): (r: Option<string>)
    requires BracesClosed(t)
    decreases |t|
  {
    match IndexOf(t, '$', 0)
    case None => Some(t)
    case Some(d) =>
      var ref := ParseRef(t, d);
      if ref.name !in vars then None
      else
        BracesClosedSuffix(t, ref.end);
        Prefixed(t[..d] + vars[ref.name], Expand(t[ref.end..], vars))
  }

  /** A text without references expands to itself. */
  lemma ExpandPlain(t: string, vars: Vars)
    requires '$' !in t
    ensures BracesClosed(t) && Expand(t, vars) == Some(t)
  {
    assert IndexOf(t, '$', 0).None?;
  }

  /** With `$`-free values, an expansion holds no `$`: every reference was replaced. */
  lemma {:induction false} ExpandRemovesDollars(t: string, vars: Vars)
    requires BracesClosed(t) && DollarFreeValues(vars)
    requires Expand(t, vars).Some?
    ensures '$' !in Expand(t, vars).value
    decreases |t|
  {
    match IndexOf(t, '$', 0)
    case None =>
    case Some(d) =>
      var ref := ParseRef(t, d);
      BracesClosedSuffix(t, ref.end);
      ExpandRemovesDollars(t[ref.end..], vars);
      var v := vars[ref.name];
      var tail := Expand(t[ref.end..], vars).value;
      assert '$' !in t[..d] + v + tail;
  }

  /** `NameEnd` and `ParseRef` read the same behind a `$`-free prefix. */
  lemma NameEndAfterPrefix(p: string, t: string, from: nat)
    requires from <= |t|
    ensures NameEnd(p + t, |p| + from) == |p| + NameEnd(t, from)
    decreases |t| - from
  {
    var s := p + t;
    assert s[|p|..] == t;
    if from < |t| {
      assert s[|p| + from] == t[from];
      if IsVarNameChar(t[from]) {
        NameEndAfterPrefix(p, t, from + 1);
      }
    }
  }

  lemma ParseRefAfterPrefix(p: string, t: string, d: nat)
    requires d < |t| && t[d] == '$' && BracesClosed(t)
    requires BracesClosed(p + t)
    ensures ParseRef(p + t, |p| + d) == Reference(ParseRef(t, d).name, |p| + ParseRef(t, d).end)
  {
    if d + 1 < |t| && t[d + 1] == '{' {
      BracedRefAfterPrefix(p, t, d);
    } else {
      PlainRefAfterPrefix(p, t, d);
    }
  }

  lemma BracedRefAfterPrefix(p: string, t: string, d: nat)
    requires d + 1 < |t| && t[d] == '$' && t[d + 1] == '{' && BracesClosed(t)
    requires BracesClosed(p + t)
    ensures ParseRef(p + t, |p| + d) == Reference(ParseRef(t, d).name, |p| + ParseRef(t, d).end)
  {
    CharsAfterPrefix(p, t, d);
    CharsAfterPrefix(p, t, d + 1);
    ClosingBraceFound(t, d);
    IndexOfShifted(p, t, '}', d + 2);
    SliceAfterPrefix(p, t, d + 2, IndexOf(t, '}', d + 2).value);
  }

  lemma PlainRefAfterPrefix(p: string, t: string, d: nat)
    requires d < |t| && t[d] == '$' && !(d + 1 < |t| && t[d + 1] == '{') && BracesClosed(t)
    requires BracesClosed(p + t)
    ensures ParseRef(p + t, |p| + d) == Reference(ParseRef(t, d).name, |p| + ParseRef(t, d).end)
  {
    CharsAfterPrefix(p, t, d);
    if d + 1 < |t| {
      CharsAfterPrefix(p, t, d + 1);
    }
    NameEndAfterPrefix(p, t, d + 1);
    SliceAfterPrefix(p, t, d + 1, NameEnd(t, d + 1));
  }

  lemma CharsAfterPrefix(p: string, t: string, k: nat)
    requires k < |t|
    ensures (p + t)[|p| + k] == t[k]
  {
  }

  lemma SliceAfterPrefix(p: string, t: string, a: nat, b: nat)
    requires a <= b <= |t|
    ensures (p + t)[|p| + a..|p| + b] == t[a..b]
  {
  }

  lemma BracesClosedAfterPrefix(p: string, t: string)
    requires '$' !in p && BracesClosed(t)
    ensures BracesClosed(p + t)
  {
    var s := p + t;
    forall j | 0 <= j < |p| ensures s[j] != '$' {
      assert s[j] == p[j];
    }
    forall i | PairAt(s, '$', '{', i)
      ensures CloseAfter(s, i + 2)
    {
      assert PairAt(t, '$', '{', i - |p|);
      var j :| i - |p| + 2 <= j < |t| && t[j] == '}';
      assert s[|p| + j] == '}';
    }
  }

  /** One step of `Expand` at the first `$` of the text. */
  lemma ExpandAt(t: string, vars: Vars, d: nat)
    requires BracesClosed(t) && IndexOf(t, '$', 0) == Some(d)
    ensures t[d] == '$' && BracesClosed(t[ParseRef(t, d).end..])
    ensures Expand(t, vars) ==
      if ParseRef(t, d).name in vars
      then Prefixed(t[..d] + vars[ParseRef(t, d).name], Expand(t[ParseRef(t, d).end..], vars))
      else None
  {
    BracesClosedSuffix(t, ParseRef(t, d).end);
  }

  /** Expanding behind a `$`-free prefix copies the prefix and expands the rest. */
  lemma ExpandAfterPrefix(p: string, t: string, vars: Vars)
    requires '$' !in p && BracesClosed(t)
    ensures BracesClosed(p + t)
    ensures Expand(p + t, vars) == Prefixed(p, Expand(t, vars))
  {
    BracesClosedAfterPrefix(p, t);
    IndexOfAfterPrefix(p, t, '$');
    if IndexOf(t, '$', 0).Some? {
      ExpandAfterPrefixAt(p, t, vars, IndexOf(t, '$', 0).value);
    }
  }

  lemma ExpandAfterPrefixAt(p: string, t: string, vars: Vars, d: nat)
    requires BracesClosed(t) && BracesClosed(p + t)
    requires IndexOf(t, '$', 0) == Some(d) && IndexOf(p + t, '$', 0) == Some(|p| + d)
    ensures Expand(p + t, vars) == Prefixed(p, Expand(t, vars))
  {
    ParseRefAfterPrefix(p, t, d);
    var ref := ParseRef(t, d);
    if ref.name in vars {
      FoundAfterPrefix(p, t, vars, d, ref.name, ref.end);
    } else {
      ExpandAtMissing(t, vars, d, ref.name, ref.end);
      ExpandAtMissing(p + t, vars, |p| + d, ref.name, |p| + ref.end);
    }
  }

  lemma FoundAfterPrefix(p: string, t: string, vars: Vars, d: nat, name: string, e: nat)
    requires BracesClosed(t) && BracesClosed(p + t)
    requires IndexOf(t, '$', 0) == Some(d) && IndexOf(p + t, '$', 0) == Some(|p| + d)
    requires ParseRef(t, d) == Reference(name, e) && ParseRef(p + t, |p| + d) == Reference(name, |p| + e)
    requires name in vars
    ensures Expand(p + t, vars) == Prefixed(p, Expand(t, vars))
  {
    var copied := t[..d] + vars[name];
    var rest := t[e..];
    ExpandAtFound(t, vars, d, name, e, copied, rest);
    FoundInJoined(p, t, vars, d, name, e, copied, rest);
    PrefixedTwice(p, copied, Expand(rest, vars));
  }

  /** The same reference, found behind the prefix, is replaced by the prefix and the same copy. */
  lemma FoundInJoined(p: string, t: string, vars: Vars, d: nat, name: string, e: nat, copied: string, rest: string)
    requires BracesClosed(p + t) && d <= e <= |t|
    requires IndexOf(p + t, '$', 0) == Some(|p| + d)
    requires ParseRef(p + t, |p| + d) == Reference(name, |p| + e) && name in vars
    requires copied == t[..d] + vars[name] && rest == t[e..]
    ensures BracesClosed(rest) && Expand(p + t, vars) == Prefixed(p + copied, Expand(rest, vars))
  {
    SlicesAfterPrefix(p, t, d, e, vars[name]);
    ExpandAtFound(p + t, vars, |p| + d, name, |p| + e, p + copied, rest);
  }

  /** `ExpandAt`, for a known reference, with the copied text and the rest given. */
  lemma ExpandAtFound(t: string, vars: Vars, d: nat, name: string, end: nat, copied: string, rest: string)
    requires BracesClosed(t) && IndexOf(t, '$', 0) == Some(d)
    requires ParseRef(t, d) == Reference(name, end) && name in vars
    requires copied == t[..d] + vars[name] && rest == t[end..]
    ensures BracesClosed(rest) && Expand(t, vars) == Prefixed(copied, Expand(rest, vars))
  {
    ExpandAt(t, vars, d);
  }

  /** `ExpandAt`, for a reference to a variable that is not there. */
  lemma ExpandAtMissing(t: string, vars: Vars, d: nat, name: string, end: nat)
    requires BracesClosed(t) && IndexOf(t, '$', 0) == Some(d)
    requires ParseRef(t, d) == Reference(name, end) && name !in vars
    ensures Expand(t, vars) == None
  {
    ExpandAt(t, vars, d);
  }

  /** How the pieces of `p + t` around a piece of `t` line up with the pieces of `t`. */
  lemma SlicesAfterPrefix(p: string, t: string, d: nat, e: nat, v: string)
    requires d <= e <= |t|
    ensures (p + t)[|p| + e..] == t[e..]
    ensures (p + t)[..|p| + d] + v == p + (t[..d] + v)
  {
    assert (p + t)[..|p| + d] == p + t[..d];
  }

  /**
   * The substitution loop of `StageReference::check`: it searches for the first `$`
   * from the beginning of the command every time, reads the reference after it and
   * replaces it in place. Because no value holds a `$`, every pass removes one `$`,
   * and the rescanning loop computes the single left-to-right pass `Expand`.
   */
  method Substitute(template: string, vars: Vars) returns (r: Option<string>)
    requires BracesClosed(template) && DollarFreeValues(vars)
    ensures r == Expand(template, vars)
  {
    var command := template;
    while true
      invariant BracesClosed(command)
      invariant Expand(command, vars) == Expand(template, vars)
      decreases multiset(command)['$']
    {
      var dollar := IndexOf(command, '$', 0);
      if dollar.None? {
        return Some(command);
      }
      var d := dollar.value;
      var varEnd: nat;
      var varName: string;
      if d + 1 < |command| && command[d + 1] == '{' {
        ClosingBraceFound(command, d);
        varEnd := IndexOf(command, '}', d + 2).value + 1;
        varName := command[d + 2..varEnd - 1];
      } else {
        varEnd := NameEnd(command, d + 1);
        varName := command[d + 1..varEnd];
      }
      assert Reference(varName, varEnd) == ParseRef(command, d);
      if varName !in vars {
        ExpandAt(command, vars, d);
        return None;
      }
      var next := command[..d] + vars[varName] + command[varEnd..];
      ReplaceFirstReference(command, vars, d, varName, varEnd, next);
      command := next;
      assert Expand(command, vars) == Expand(template, vars);
    }
  }

  /**
   * Replacing the first reference of a text by its `$`-free value keeps the braces
   * closed, keeps the expansion and removes one `$`.
   */
  lemma ReplaceFirstReference(t: string, vars: Vars, d: nat, name: string, end: nat, u: string)
    requires BracesClosed(t) && DollarFreeValues(vars)
    requires IndexOf(t, '$', 0) == Some(d) && ParseRef(t, d) == Reference(name, end) && name in vars
    requires u == t[..d] + vars[name] + t[end..]
    ensures BracesClosed(u) && Expand(u, vars) == Expand(t, vars)
    ensures multiset(u)['$'] < multiset(t)['$']
  {
    var v := vars[name];
    var p := t[..d] + v;
    var rest := t[end..];
    ExpandAt(t, vars, d);
    assert '$' !in t[..d];
    assert '$' !in p;
    ExpandAfterPrefix(p, rest, vars);
    assert u == p + rest;
    FewerDollars(t, d, end, v, u);
  }

  /** Putting a `$`-free text in place of a piece that starts with `$` leaves fewer `$`. */
  lemma FewerDollars(t: string, d: nat, end: nat, v: string, u: string)
    requires d < end <= |t| && t[d] == '$' && '$' !in v
    requires u == t[..d] + v + t[end..]
    ensures multiset(u)['$'] < multiset(t)['$']
  {
    var b := t[d..end];
    assert t == t[..d] + b + t[end..];
    assert b == [b[0]] + b[1..];
    assert multiset(b)['$'] == 1 + multiset(b[1..])['$'];
  }

  /** `$X` followed by a text that does not continue the name is a reference to X. */
  /** A `$` followed by a name cannot open a `${`, so the text has its braces closed when the rest has. */
  lemma PlainReferenceClosed(x: string, rest: string, plain: string)
    requires x != [] && forall k | 0 <= k < |x| :: IsVarNameChar(x[k])
    requires BracesClosed(rest) && plain == "$" + x + rest
    ensures BracesClosed(plain) && plain[1] != '{'
  {
    assert forall k | 0 <= k < |x| :: plain[1 + k] == x[k];
    assert forall k | 0 <= k < |rest| :: plain[1 + |x| + k] == rest[k];
    assert plain[1] == x[0] != '{';
    forall i | PairAt(plain, '$', '{', i)
      ensures CloseAfter(plain, i + 2)
    {
      assert i >= 1 + |x|;
      assert PairAt(rest, '$', '{', i - 1 - |x|);
      var j :| i - 1 - |x| + 2 <= j < |rest| && rest[j] == '}';
      assert plain[1 + |x| + j] == '}';
    }
  }

  lemma PlainReference(x: string, rest: string)
    requires x != [] && forall k | 0 <= k < |x| :: IsVarNameChar(x[k])
    requires rest == [] || !IsVarNameChar(rest[0])
    requires BracesClosed(rest)
    ensures var plain := "$" + x + rest;
      BracesClosed(plain) && IndexOf(plain, '$', 0) == Some(0) &&
      ParseRef(plain, 0) == Reference(x, 1 + |x|) && plain[1 + |x|..] == rest
  {
    var plain := "$" + x + rest;
    PlainReferenceClosed(x, rest, plain);
    assert IndexOf(plain, '$', 0) == Some(0);
    NameEndAfterPrefix("$" + x, rest, 0);
    assert plain == ("$" + x) + rest;
    NameEndAfterPrefix("$", x, 0);
    assert "$" + x == "$" + x + [];
    assert NameEnd(plain, 1) == 1 + |x| by {
      assert NameEnd(x, 0) == |x|;
    }
    assert plain[1 + |x|..] == rest;
  }

  /** `${X}` with X free of `}` is a reference to X. */
  lemma BracedReference(x: string, rest: string)
    requires '}' !in x
    requires BracesClosed(rest)
    ensures var braced := "${" + x + "}" + rest;
      BracesClosed(braced) && IndexOf(braced, '$', 0) == Some(0) &&
      ParseRef(braced, 0) == Reference(x, 3 + |x|) && braced[3 + |x|..] == rest
  {
    var braced := "${" + x + "}" + rest;
    assert forall k | 0 <= k < |x| :: braced[2 + k] == x[k];
    assert forall k | 0 <= k < |rest| :: braced[3 + |x| + k] == rest[k];
    assert braced[1] == '{' && braced[2 + |x|] == '}';
    assert BracesClosed(braced) by {
      forall i | PairAt(braced, '$', '{', i)
        ensures CloseAfter(braced, i + 2)
      {
        if i <= |x| {
          assert braced[2 + |x|] == '}';
        } else {
          assert i >= 3 + |x|;
          assert PairAt(rest, '$', '{', i - 3 - |x|);
          var j :| i - 3 - |x| + 2 <= j < |rest| && rest[j] == '}';
          assert braced[3 + |x| + j] == '}';
        }
      }
    }
    assert IndexOf(braced, '$', 0) == Some(0);
    assert IndexOf(braced, '}', 2) == Some(2 + |x|) by {
      forall k | 2 <= k < 2 + |x| ensures braced[k] != '}' {
        assert braced[k] == x[k - 2];
      }
    }
    assert braced[2..2 + |x|] == x;
    assert braced[3 + |x|..] == rest;
  }

  /** `$X` and `${X}` expand alike when X is a whole name. */
  lemma BraceFormsAgree(x: string, rest: string, vars: Vars)
    requires x != [] && forall k | 0 <= k < |x| :: IsVarNameChar(x[k])
    requires rest == [] || !IsVarNameChar(rest[0])
    requires BracesClosed(rest)
    ensures BracesClosed("$" + x + rest) && BracesClosed("${" + x + "}" + rest)
    ensures Expand("$" + x + rest, vars) == Expand("${" + x + "}" + rest, vars)
    ensures Expand("$" + x + rest, vars) == if x in vars then Prefixed(vars[x], Expand(rest, vars)) else None
  {
    var plain := "$" + x + rest;
    var braced := "${" + x + "}" + rest;
    PlainReference(x, rest);
    assert '}' !in x by {
      forall k | 0 <= k < |x| ensures x[k] != '}' {
        assert IsVarNameChar(x[k]);
      }
    }
    BracedReference(x, rest);
    ExpandAt(plain, vars, 0);
    ExpandAt(braced, vars, 0);
    if x in vars {
      assert plain[..0] + vars[x] == vars[x];
      assert braced[..0] + vars[x] == vars[x];
    }
  }
}

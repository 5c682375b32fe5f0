/**
 * Character classes and searches of the C++ standard library, as the
 * pipeline-script engine uses them on `std::string`.
 */
module Text {
  import opened Wrappers

  /** `isalnum` in the "C" locale: ASCII letters and digits. */
  predicate IsAlnum(c: char) {
    ('a' <= c <= 'z') || ('A' <= c <= 'Z') || ('0' <= c <= '9')
  }

  /** The characters of the grammar's `ascii::space` skipper (`isspace` in the "C" locale). */
  predicate IsSpace(c: char) {
    c == ' ' || ('\t' <= c <= '\r')
  }

  /** The characters `ascii::char_` accepts. */
  predicate IsAscii(c: char) {
    c < 128 as char
  }

  /** The two characters `a`, `b` stand in `s` at index `i`. */
  predicate PairAt(s: string, a: char, b: char, i: int) {
    0 <= i && i + 1 < |s| && s[i] == a && s[i + 1] == b
  }

  /** `s.find(pat, from)` for a two-character `pat` = `a` `b`: the first occurrence at or after `from`; `None` is `npos`. */
  function FindPair(s: string, a: char, b: char, from: nat): (r: Option<nat>)
    decreases |s| - from
    ensures r.Some? ==> from <= r.value && PairAt(s, a, b, r.value)
    ensures forall j | from <= j && (r.None? || j < r.value) :: !PairAt(s, a, b, j)
  {
    if from + 1 >= |s| then None
    else if s[from] == a && s[from + 1] == b then Some(from)
    else FindPair(s, a, b, from + 1)
  }

  /** `find(s.begin() + from, s.end(), c)`: the first index at or after `from` holding `c`. */
  function IndexOf(s: string, c: char, from: nat): (r: Option<nat>)
    decreases |s| - from
    ensures r.Some? ==> from <= r.value < |s| && s[r.value] == c
    ensures forall j | from <= j < |s| && (r.None? || j < r.value) :: s[j] != c
  {
    if from >= |s| then None
    else if s[from] == c then Some(from)
    else IndexOf(s, c, from + 1)
  }

  /** Behind a prefix free of `c`, the first `c` is the first `c` of the rest, shifted. */
  lemma IndexOfAfterPrefix(p: string, t: string, c: char)
    requires c !in p
    ensures IndexOf(p + t, c, 0) == (match IndexOf(t, c, 0) case None => None case Some(i) => Some(|p| + i))
  {
    var s := p + t;
    forall j | 0 <= j < |p| ensures s[j] != c {
      assert s[j] == p[j];
    }
    forall j | 0 <= j < |t| ensures s[|p| + j] == t[j] { }
    if IndexOf(s, c, 0).Some? {
      var i := IndexOf(s, c, 0).value;
      if i >= |p| { assert t[i - |p|] == c; }
    }
  }

  /** A search that starts behind a prefix is a search in the rest, shifted. */
  lemma IndexOfShifted(p: string, t: string, c: char, k: nat)
    ensures IndexOf(p + t, c, |p| + k) == (match IndexOf(t, c, k) case None => None case Some(i) => Some(|p| + i))
  {
    var s := p + t;
    forall j | 0 <= j < |t| ensures s[|p| + j] == t[j] { }
    if IndexOf(s, c, |p| + k).Some? {
      var i := IndexOf(s, c, |p| + k).value;
      assert t[i - |p|] == c;
    }
  }
}

// The comment stripper of `BPipe::load`: once the script text is in memory,
// one loop erases `/* ... */` blocks and a second loop erases `// ...` up to the
// next newline. Both loops rescan the whole text from the start on every pass.
module Comments {
  import opened Wrappers
  import opened Text

  // `size_t` is 64 bits wide; unsigned arithmetic on positions wraps modulo this.
  const SizeModulus: int := 0x1_0000_0000_0000_0000

  // `std::string::npos`, the largest `size_t`.
  const Npos: nat := SizeModulus - 1

  // A difference of two `size_t` positions, as the unsigned value C++ computes.
  function SizeT(x: int): (r: nat)
    ensures 0 <= x < SizeModulus ==> r == x
    ensures -SizeModulus <= x < 0 ==> r == x + SizeModulus
  {
    x % SizeModulus
  }

  function Min(a: int, b: int): int {
    if a <= b then a else b
  }

  // `s.erase(pos, count)`: removes `min(count, |s| - pos)` characters starting at `pos`.
  function Erase(s: string, pos: nat, count: nat): string
    requires pos <= |s|
  {
    s[..pos] + s[pos + Min(count, |s| - pos)..]
  }

  // The outcome of a stripping loop: the text it leaves, or the text on which it spins forever.
  datatype Stripped = Done(text: string) | Hangs(text: string)

  // ---------------------------------------------------------------- block comments

  // The first `/*` and the first `*/`, searched for independently.
  function BlockStart(s: string): Option<nat> { FindPair(s, '/', '*', 0) }
  function BlockEnd(s: string): Option<nat> { FindPair(s, '*', '/', 0) }

  // One pass of the block-comment loop: `None` when the loop breaks, otherwise the
  // text after `erase(cstart, cend - cstart + 2)`, the count computed in `size_t`.
  function BlockPass(s: string): Option<string>
  {
    var cstart := BlockStart(s);
    var cend := BlockEnd(s);
    if cstart.Some? && cend.Some? then
      Some(Erase(s, cstart.value, SizeT(cend.value as int - cstart.value + 2)))
    else
      None
  }

  // A pass never lengthens the text, and one that keeps its length changes nothing.
  lemma BlockPassNeverGrows(s: string)
    ensures BlockPass(s).Some? ==> |BlockPass(s).value| <= |s|
    ensures BlockPass(s).Some? && |BlockPass(s).value| == |s| ==> BlockPass(s).value == s
  {
    if BlockPass(s).Some? {
      var pos := BlockStart(s).value;
      assert s[..pos] + s[pos..] == s;
    }
  }

  // The loop breaks exactly when one of the two markers is missing from the text.
  lemma BlockPassBreaks(s: string)
    ensures BlockPass(s).None? <==>
      (forall i :: !PairAt(s, '/', '*', i)) || (forall i :: !PairAt(s, '*', '/', i))
  {
  }

  // When the first `*/` comes after the first `/*`, a pass erases that span, both
  // markers included, and the text gets strictly shorter.
  lemma BlockPassErasesSpan(s: string, cstart: nat, cend: nat)
    requires |s| < SizeModulus
    requires BlockStart(s) == Some(cstart) && BlockEnd(s) == Some(cend)
    requires cstart < cend
    ensures BlockPass(s) == Some(s[..cstart] + s[cend + 2..])
    ensures |BlockPass(s).value| == |s| - (cend - cstart + 2) < |s|
  {
  }

  // When the first `*/` ends more than one character before the first `/*`, the
  // count wraps around and the pass erases everything from `/*` to the end.
  lemma BlockPassWraps(s: string, cstart: nat, cend: nat)
    requires |s| < SizeModulus
    requires BlockStart(s) == Some(cstart) && BlockEnd(s) == Some(cend)
    requires cend + 2 < cstart
    ensures BlockPass(s) == Some(s[..cstart])
  {
    var count := SizeT(cend - cstart + 2);
    assert count == cend - cstart + 2 + SizeModulus;
    assert Min(count, |s| - cstart) == |s| - cstart;
    assert s[..cstart] + s[|s|..] == s[..cstart];
  }

  // When the first `*/` ends exactly where the first `/*` starts, a pass erases nothing.
  lemma BlockPassStalls(s: string, cstart: nat, cend: nat)
    requires BlockStart(s) == Some(cstart) && BlockEnd(s) == Some(cend)
    requires cend + 2 == cstart
    ensures BlockPass(s) == Some(s)
  {
    assert s[..cstart] + s[cstart..] == s;
  }

  // Conversely, that is the only case in which a pass leaves the text as it is: in
  // every other one the count is positive and at least one character goes.
  lemma BlockPassStallsOnlyOnTouching(s: string)
    requires |s| < SizeModulus
    ensures BlockPass(s) == Some(s) <==>
      BlockStart(s).Some? && BlockEnd(s).Some? && BlockEnd(s).value + 2 == BlockStart(s).value
  {
    if BlockStart(s).Some? && BlockEnd(s).Some? {
      var cstart := BlockStart(s).value;
      var cend := BlockEnd(s).value;
      if cend + 2 == cstart {
        BlockPassStalls(s, cstart, cend);
      } else {
        assert SizeT(cend as int - cstart + 2) > 0;
        assert |BlockPass(s).value| < |s|;
      }
    }
  }

  // The block-comment loop: passes are repeated while they shorten the text. A pass
  // that does not shorten it leaves it unchanged (BlockPassNeverGrows), so from then
  // on the loop repeats that same pass forever: that is `Hangs`.
  function StripBlocks(s: string): (r: Stripped)
    decreases |s|
    ensures |r.text| <= |s|
    ensures r.Done? ==> BlockPass(r.text).None?
    ensures r.Hangs? ==> BlockPass(r.text) == Some(r.text)
  {
    BlockPassNeverGrows(s);
    match BlockPass(s)
    case None => Done(s)
    case Some(t) => if |t| < |s| then StripBlocks(t) else Hangs(s)
  }

  // The loop of `BPipe::load` that removes block comments, with the text held in a local.
  method StripBlockComments(text: string) returns (r: Stripped)
    ensures r == StripBlocks(text)
  {
    var s := text;
    while true
      invariant StripBlocks(s) == StripBlocks(text)
      decreases |s|
    {
      var cstart := FindPair(s, '/', '*', 0);
      var cend := FindPair(s, '*', '/', 0);
      if cstart.Some? && cend.Some? {
        var next := Erase(s, cstart.value, SizeT(cend.value as int - cstart.value + 2));
        assert BlockPass(s) == Some(next);
        BlockPassNeverGrows(s);
        if |next| == |s| {
          // nothing was erased: the source repeats this very pass forever
          return Hangs(s);
        }
        s := next;
      } else {
        assert BlockPass(s).None?;
        break;
      }
    }
    return Done(s);
  }

  // The block loop hangs exactly when the text it is left with has its first `*/`
  // ending where its first `/*` starts.
  lemma StripBlocksHangsOnlyOnTouching(s: string)
    requires |s| < SizeModulus
    ensures var t := StripBlocks(s).text;
      StripBlocks(s).Hangs? <==>
        BlockStart(t).Some? && BlockEnd(t).Some? && BlockEnd(t).value + 2 == BlockStart(t).value
  {
    BlockPassStallsOnlyOnTouching(StripBlocks(s).text);
  }

  // `*//*`: the first `*/` ends where the first `/*` starts, and the loop never ends.
  lemma StripBlocksHangsOnTouchingMarkers()
    ensures StripBlocks("*//*") == Hangs("*//*")
  {
    var s := "*//*";
    assert PairAt(s, '*', '/', 0);
    assert !PairAt(s, '/', '*', 0) && !PairAt(s, '/', '*', 1) && PairAt(s, '/', '*', 2);
    BlockPassStalls(s, 2, 0);
  }

  // A `*/` far before the first `/*` makes the pass erase the rest of the text, comment or not.
  lemma StripBlocksWrapsToEnd()
    ensures StripBlocks("*/ a /* b */ c") == Done("*/ a ")
  {
    var s := "*/ a /* b */ c";
    assert PairAt(s, '*', '/', 0);
    assert PairAt(s, '/', '*', 5);
    assert forall i | 0 <= i < 5 :: !PairAt(s, '/', '*', i);
    BlockPassWraps(s, 5, 0);
    var t := "*/ a ";
    assert s[..5] == t;
    assert forall i :: !PairAt(t, '/', '*', i);
  }

  // ---------------------------------------------------------------- line comments

  // One pass of the line-comment loop: `None` when the loop breaks, otherwise the text
  // after `erase(cstart, cend - cstart)`, where `cend` is the first newline at or after
  // `cstart`; without a `//` the newline is searched for from `npos` and not found.
  function LinePass(s: string): Option<string>
  {
    var cstart := FindPair(s, '/', '/', 0);
    var cend := IndexOf(s, '\n', cstart.GetOr(Npos));
    if cstart.Some? && cend.Some? then
      Some(Erase(s, cstart.value, SizeT(cend.value as int - cstart.value)))
    else
      None
  }

  // A pass erases from the first `//` up to, not including, the next newline: at
  // least two characters, and never a newline.
  lemma LinePassErasesToNewline(s: string, cstart: nat, cend: nat)
    requires |s| < SizeModulus
    requires FindPair(s, '/', '/', 0) == Some(cstart) && IndexOf(s, '\n', cstart) == Some(cend)
    ensures cstart + 2 <= cend
    ensures LinePass(s) == Some(s[..cstart] + s[cend..])
    ensures |LinePass(s).value| <= |s| - 2
    ensures multiset(LinePass(s).value)['\n'] == multiset(s)['\n']
  {
    assert PairAt(s, '/', '/', cstart);
    CutWithoutNewline(s, cstart, cend);
  }

  /** Cutting out a piece that holds no newline keeps every newline. */
  lemma CutWithoutNewline(s: string, a: nat, b: nat)
    requires a <= b <= |s| && forall j | a <= j < b :: s[j] != '\n'
    ensures |s[..a] + s[b..]| == |s| - (b - a)
    ensures multiset(s[..a] + s[b..])['\n'] == multiset(s)['\n']
  {
    var piece := s[a..b];
    assert s == s[..a] + piece + s[b..];
    assert '\n' !in piece by {
      forall j | 0 <= j < b - a ensures piece[j] != '\n' {
        assert s[a + j] != '\n';
      }
    }
    assert multiset(s) == multiset(s[..a]) + multiset(piece) + multiset(s[b..]);
  }

  // The loop breaks exactly when no `//` has a newline somewhere after it.
  lemma LinePassBreaks(s: string)
    ensures LinePass(s).None? <==>
      forall i, j | PairAt(s, '/', '/', i) && i <= j < |s| :: s[j] != '\n'
  {
    var cstart := FindPair(s, '/', '/', 0);
    if cstart.Some? {
      var cend := IndexOf(s, '\n', cstart.value);
      if cend.None? {
        forall i, j | PairAt(s, '/', '/', i) && i <= j < |s| ensures s[j] != '\n' {
          assert cstart.value <= i;
        }
      }
    }
  }

  // The line-comment loop. Each pass shortens the text by at least two characters,
  // so it always ends; the result has no `//` with a newline after it, and keeps
  // every newline of the input.
  function StripLines(s: string): (r: string)
    requires |s| < SizeModulus
    decreases |s|
    ensures |r| <= |s|
    ensures LinePass(r).None?
    ensures multiset(r)['\n'] == multiset(s)['\n']
  {
    match LinePass(s)
    case None => s
    case Some(t) =>
      var cstart := FindPair(s, '/', '/', 0).value;
      LinePassErasesToNewline(s, cstart, IndexOf(s, '\n', cstart).value);
      StripLines(t)
  }

  // The loop of `BPipe::load` that removes line comments, with the text held in a local.
  method StripLineComments(text: string) returns (r: string)
    requires |text| < SizeModulus
    ensures r == StripLines(text)
  {
    var s := text;
    while true
      invariant |s| < SizeModulus
      invariant StripLines(s) == StripLines(text)
      decreases |s|
    {
      var cstart := FindPair(s, '/', '/', 0);
      var cend := IndexOf(s, '\n', cstart.GetOr(Npos));
      if cstart.Some? && cend.Some? {
        var next := Erase(s, cstart.value, SizeT(cend.value as int - cstart.value));
        assert LinePass(s) == Some(next);
        LinePassErasesToNewline(s, cstart.value, cend.value);
        s := next;
      } else {
        assert LinePass(s).None?;
        break;
      }
    }
    return s;
  }

  // Both loops of `BPipe::load`, in order: the second runs only if the first ends.
  function StripComments(text: string): (r: Stripped)
    requires |text| < SizeModulus
    ensures r.Done? ==> LinePass(r.text).None?
    ensures r.Hangs? ==> BlockPass(r.text) == Some(r.text)
  {
    match StripBlocks(text)
    case Hangs(t) => Hangs(t)
    case Done(t) => Done(StripLines(t))
  }

  // The comment-stripping part of `BPipe::load`, as a method over the loaded text.
  method StripScript(text: string) returns (r: Stripped)
    requires |text| < SizeModulus
    ensures r == StripComments(text)
  {
    r := StripBlockComments(text);
    if r.Done? {
      var t := StripLineComments(r.text);
      r := Done(t);
    }
  }
}

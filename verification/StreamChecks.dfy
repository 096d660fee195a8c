/** The three checks that a publishable prefix must pass (src/kai/bot.py, lines 417 to 582). */
module StreamChecks {
  import opened Text
  import opened InlineMarkdown

  datatype Kind = Sentence | Paragraph | ListItem | ClosedFence | LongSpan | Full

  predicate IsSentenceEnd(c: char) {
    c == '.' || c == '?' || c == '!'
  }

  predicate IsCloser(c: char) {
    c == '"' || c == '\'' || c == ')' || c == ']' || c == '`'
  }

  // ----- fences

  predicate TicksAt(line: string, k: nat) {
    k + 3 <= |line| && line[k] == line[k + 1] == line[k + 2] == '`'
  }

  predicate SpaceAt(line: string, k: nat) {
    k < |line| && line[k] == ' '
  }

  /** At most three spaces, then three backticks (section 4.5 of CommonMark, indentation rule). */
  predicate IsFenceLine(line: string) {
    || TicksAt(line, 0)
    || (SpaceAt(line, 0) && TicksAt(line, 1))
    || (SpaceAt(line, 0) && SpaceAt(line, 1) && TicksAt(line, 2))
    || (SpaceAt(line, 0) && SpaceAt(line, 1) && SpaceAt(line, 2) && TicksAt(line, 3))
  }

  lemma FenceLineExactly(line: string)
    ensures IsFenceLine(line) <==> exists n, rest: string :: 0 <= n <= 3 && line == "   "[..n] + "```" + rest
  {
    if IsFenceLine(line) {
      var n := if TicksAt(line, 0) then 0 else if TicksAt(line, 1) then 1 else if TicksAt(line, 2) then 2 else 3;
      assert line == "   "[..n] + "```" + line[n + 3..];
    }
  }

  /** The number of fence lines among the first n lines. */
  function FenceCount(raws: seq<string>, n: nat): nat
    requires n <= |raws|
  {
    if n == 0 then 0 else FenceCount(raws, n - 1) + (if IsFenceLine(Chomp(raws[n - 1])) then 1 else 0)
  }

  ghost function FencesAt(raws: seq<string>, n: nat): set<int>
    requires n <= |raws|
  {
    set i | 0 <= i < n && IsFenceLine(Chomp(raws[i]))
  }

  lemma {:induction false} FenceCountExactly(raws: seq<string>, n: nat)
    requires n <= |raws|
    ensures FenceCount(raws, n) == |FencesAt(raws, n)|
  {
    hide IsFenceLine, Chomp;
    if n > 0 {
      FenceCountExactly(raws, n - 1);
      var before := FencesAt(raws, n - 1);
      assert FencesAt(raws, n) == if IsFenceLine(Chomp(raws[n - 1])) then before + {n - 1} else before;
    }
  }

  predicate OpenFence(text: string) {
    FenceCount(RawLines(text), |RawLines(text)|) % 2 == 1
  }

  method HasOpenFencedCode(text: string) returns (open: bool)
    ensures open == OpenFence(text)
    ensures open <==> |FencesAt(RawLines(text), |RawLines(text)|)| % 2 == 1
  {
    FenceCountExactly(RawLines(text), |RawLines(text)|);
    var lines := RawLines(text);
    var fences := 0;
    for i := 0 to |lines|
      invariant fences == FenceCount(lines, i)
    {
      if IsFenceLine(Chomp(lines[i])) {
        fences := fences + 1;
      }
    }
    open := fences % 2 == 1;
  }

  lemma FenceCountOfPrefix(a: seq<string>, b: seq<string>, n: nat)
    requires n <= |a|
    ensures FenceCount(a + b, n) == FenceCount(a, n)
  {
  }

  /** Reading one more line, whole or in part, updates a fence tracker correctly. */
  lemma FenceTracker(w: string, p: nat, c: nat)
    requires p <= |w| && LineStart(w, p) && p < c <= |w| && c <= LineEnd(w, p) + 1
    ensures OpenFence(w[..c]) == (OpenFence(w[..p]) != IsFenceLine(Chomp(w[p..c])))
  {
    hide RawLines, LineEnd, LineStart, IsFenceLine, Chomp;
    var before, line := RawLines(w[..p]), w[p..c];
    assert RawLines(w[..c]) == before + [line] by {
      RawLinesUpTo(w, p, c);
    }
    FenceCountOfPrefix(before, [line], |before|);
    FlipParity(FenceCount(before, |before|), IsFenceLine(Chomp(line)));
  }

  lemma NothingIsOpen(w: string)
    ensures !OpenFence(w[..0])
  {
    assert w[..0] == "";
  }

  lemma FlipParity(a: nat, b: bool)
    ensures ((a + (if b then 1 else 0)) % 2 == 1) == ((a % 2 == 1) != b)
  {
  }

  /** A line is a fence as soon as its beginning is, and it stays one or stays none once it
      holds a character that is neither a space nor a backtick. */
  lemma FencePrefix(line: string, longer: string)
    requires line <= longer
    ensures IsFenceLine(line) ==> IsFenceLine(longer)
    ensures (exists t :: 0 <= t < |line| && line[t] != ' ' && line[t] != '`')
            ==> (IsFenceLine(line) <==> IsFenceLine(longer))
  {
  }

  // ----- text outside fences

  /** Raw line i counts when it is no fence line and an even number of fence lines precede it. */
  function KeptOf(raws: seq<string>, i: nat): string
    requires i < |raws|
  {
    if IsFenceLine(Chomp(raws[i])) || FenceCount(raws, i) % 2 == 1 then "" else raws[i]
  }

  function KeepOutside(raws: seq<string>, n: nat): string
    requires n <= |raws|
  {
    if n == 0 then "" else KeepOutside(raws, n - 1) + KeptOf(raws, n - 1)
  }

  /** The text of the lines that sit outside fenced blocks. */
  function Outside(text: string): string {
    KeepOutside(RawLines(text), |RawLines(text)|)
  }

  lemma KeepOutsideOfPrefix(a: seq<string>, b: seq<string>, n: nat)
    requires n <= |a|
    ensures KeepOutside(a + b, n) == KeepOutside(a, n)
  {
    if n > 0 {
      FenceCountOfPrefix(a, b, n - 1);
    }
  }

  lemma {:induction false} FenceCountConcat(a: seq<string>, b: seq<string>, n: nat)
    requires n <= |b|
    ensures FenceCount(a + b, |a| + n) == FenceCount(a, |a|) + FenceCount(b, n)
  {
    hide IsFenceLine, Chomp;
    if n == 0 {
      FenceCountOfPrefix(a, b, |a|);
    } else {
      FenceCountConcat(a, b, n - 1);
    }
  }

  lemma KeptOfConcat(a: seq<string>, b: seq<string>, i: nat)
    requires i < |b| && FenceCount(a, |a|) % 2 == 0
    ensures KeptOf(a + b, |a| + i) == KeptOf(b, i)
  {
    hide IsFenceLine, Chomp, FenceCount;
    FenceCountConcat(a, b, i);
    assert (a + b)[|a| + i] == b[i];
    SameParity(FenceCount(a, |a|), FenceCount(b, i));
  }

  lemma KeepOutsideStep(raws: seq<string>, i: nat)
    requires i < |raws|
    ensures KeepOutside(raws, i + 1) == KeepOutside(raws, i) + KeptOf(raws, i)
  {
    hide KeptOf;
  }

  /** After an even number of fence lines the next lines are read as if they stood alone. */
  lemma {:induction false} OutsideConcat(a: seq<string>, b: seq<string>, n: nat)
    requires n <= |b| && FenceCount(a, |a|) % 2 == 0
    ensures KeepOutside(a + b, |a| + n) == KeepOutside(a, |a|) + KeepOutside(b, n)
  {
    hide *;
    var c, m := a + b, |a| + n;
    if n == 0 {
      KeepOutsideOfPrefix(a, b, |a|);
      assert KeepOutside(b, 0) == "" by { NothingKept(b); }
      assert KeepOutside(a, |a|) + "" == KeepOutside(a, |a|);
    } else {
      OutsideConcat(a, b, n - 1);
      KeptOfConcat(a, b, n - 1);
      KeepOutsideStep(c, m - 1);
      KeepOutsideStep(b, n - 1);
      Associative(KeepOutside(a, |a|), KeepOutside(b, n - 1), KeptOf(b, n - 1));
    }
  }

  lemma NothingKept(raws: seq<string>)
    ensures KeepOutside(raws, 0) == ""
  {
  }

  lemma Associative(a: string, b: string, c: string)
    ensures a + (b + c) == (a + b) + c
  {
  }

  lemma SameParity(even: nat, n: nat)
    requires even % 2 == 0
    ensures (even + n) % 2 == n % 2
  {
  }

  /** Two fence lines with no fence line between them. */
  ghost predicate IsFencedBlock(block: seq<string>) {
    && |block| >= 2
    && forall i | 0 <= i < |block| :: IsFenceLine(Chomp(block[i])) <==> i == 0 || i == |block| - 1
  }

  lemma {:induction false} InsideABlock(block: seq<string>, n: nat)
    requires IsFencedBlock(block) && 0 < n <= |block|
    ensures FenceCount(block, n) == (if n < |block| then 1 else 2) && KeepOutside(block, n) == ""
  {
    hide IsFenceLine, Chomp;
    if n == 1 {
      assert FenceCount(block, 0) == 0 && KeepOutside(block, 0) == "";
    } else {
      InsideABlock(block, n - 1);
    }
  }

  /** A fenced block adds nothing, and what follows it is read as if it stood alone. */
  lemma FencedBlockIsSkipped(a: seq<string>, block: seq<string>, b: seq<string>)
    requires FenceCount(a, |a|) % 2 == 0 && IsFencedBlock(block)
    ensures KeepOutside(a + block + b, |a + block + b|) == KeepOutside(a, |a|) + KeepOutside(b, |b|)
  {
    hide IsFenceLine, Chomp, KeepOutside, FenceCount;
    assert FenceCount(block, |block|) == 2 && KeepOutside(block, |block|) == "" by {
      InsideABlock(block, |block|);
    }
    OutsideConcat(a, block, |block|);
    FenceCountConcat(a, block, |block|);
    OutsideConcat(a + block, b, |b|);
  }

  lemma PlainLineIsKept(line: string)
    requires !IsFenceLine(Chomp(line))
    ensures FenceCount([line], 1) == 0 && KeepOutside([line], 1) == line
  {
    hide IsFenceLine, Chomp;
    assert FenceCount([line], 0) == 0 && KeepOutside([line], 0) == "";
  }

  lemma OutsideStep(text: string)
    requires text != "" && !IsFenceLine(Chomp(text[..LineLength(text)]))
    ensures Outside(text) == text[..LineLength(text)] + Outside(text[LineLength(text)..])
  {
    hide IsFenceLine, Chomp, RawLines, FenceCount, KeepOutside;
    var first, rest := text[..LineLength(text)], RawLines(text[LineLength(text)..]);
    RawLinesStep(text);
    PlainLineIsKept(first);
    OutsideConcat([first], rest, |rest|);
  }

  /** Without fence lines every line is kept. */
  lemma {:induction false} PlainTextIsKept(text: string)
    requires forall line | line in RawLines(text) :: !IsFenceLine(Chomp(line))
    ensures Outside(text) == text
    decreases |text|
  {
    if text != "" {
      hide *;
      var n := LineLength(text);
      var first, rest := text[..n], text[n..];
      RawLinesStep(text);
      forall line | line in RawLines(rest)
        ensures line in RawLines(text)
      {
      }
      assert text == first + rest && RawLines(text)[0] == first;
      OutsideStep(text);
      PlainTextIsKept(rest);
    }
  }

  method SegmentsOutsideFences(text: string) returns (outside: string)
    ensures outside == Outside(text)
  {
    hide IsFenceLine, Chomp, RawLines;
    var raws := RawLines(text);
    outside := "";
    var inFence := false;
    for i := 0 to |raws|
      invariant outside == KeepOutside(raws, i)
      invariant inFence == (FenceCount(raws, i) % 2 == 1)
    {
      if IsFenceLine(Chomp(raws[i])) {
        inFence := !inFence;
        continue;
      }
      if !inFence {
        outside := outside + raws[i];
      }
    }
  }

  // ----- inline Markdown

  predicate Unbalanced(text: string) {
    var toks := Tokens(Outside(text));
    Backticks(toks) % 2 == 1 || EndsOpen(Label(0, false), toks)
  }

  /** An even number of unescaped backticks, and no link or label that is still open. */
  ghost predicate HasOnlyWholeInline(s: string) {
    (exists toks :: Spells(toks, s) && CountOf(toks, '`') % 2 == 0) && HasOnlyClosedLinks(s)
  }

  lemma WholeInlineExactlyIf(text: string)
    ensures !Unbalanced(text) <==> HasOnlyWholeInline(Outside(text))
    ensures EndsInTarget(Outside(text)) || EndsInLabel(Outside(text)) ==> Unbalanced(text)
  {
    hide EndsInTarget, EndsInLabel, HasOnlyClosedLinks, Tokens, Spells, Backticks, EndsOpen, CountOf, Outside;
    var s := Outside(text);
    SpellsExactlyItsTokens(Tokens(s), s);
    CountsAreCounts(Tokens(s));
    LinksEndClosedExactlyIf(s);
    if toks :| Spells(toks, s) && CountOf(toks, '`') % 2 == 0 {
      SpellsExactlyItsTokens(toks, s);
    }
    if EndsInTarget(s) || EndsInLabel(s) {
      CutLinksAreOpen(s);
    }
  }

  method HasUnbalancedInlineMarkdown(text: string) returns (unbalanced: bool)
    ensures unbalanced == Unbalanced(text)
    ensures !unbalanced <==> HasOnlyWholeInline(Outside(text))
    ensures EndsInTarget(Outside(text)) || EndsInLabel(Outside(text)) ==> unbalanced
  {
    WholeInlineExactlyIf(text);
    var outside := SegmentsOutsideFences(text);
    var odd := HasOddBackticks(outside);
    if odd {
      return true;
    }
    unbalanced := LinksEndOpen(outside);
  }

  /** The backtick scan of `_has_unbalanced_inline_markdown`. */
  method HasOddBackticks(outside: string) returns (odd: bool)
    ensures odd == (Backticks(Tokens(outside)) % 2 == 1)
    ensures forall toks | Spells(toks, outside) :: odd == (CountOf(toks, '`') % 2 == 1)
  {
    var n := |outside|;
    var backticks := 0;
    var i := 0;
    while i < n
      invariant 0 <= i <= n
      invariant backticks + Backticks(Tokens(outside[i..])) == Backticks(Tokens(outside))
    {
      TokensStep(outside, i);
      if outside[i] == '\\' && i + 1 < n {
        i := i + 2;
        continue;
      }
      if outside[i] == '`' {
        backticks := backticks + 1;
      }
      i := i + 1;
    }
    odd := backticks % 2 == 1;
    CountsAreCounts(Tokens(outside));
    forall toks | Spells(toks, outside)
      ensures toks == Tokens(outside)
    {
      SpellsExactlyItsTokens(toks, outside);
    }
  }

  /** The bracket scan of `_has_unbalanced_inline_markdown`, which looks one character ahead. */
  method LinksEndOpen(outside: string) returns (open: bool)
    ensures open == EndsOpen(Label(0, false), Tokens(outside))
    ensures open <==> !HasOnlyClosedLinks(outside)
    ensures EndsInTarget(outside) || EndsInLabel(outside) ==> open
  {
    hide EndsInTarget, EndsInLabel, HasOnlyClosedLinks, EndsOpen, Tokens;
    var n := |outside|;
    var openBrackets, inLinkTarget, parenDepth := 0, false, 0;
    var i := 0;
    while i < n
      invariant 0 <= i <= n && openBrackets >= 0 && (inLinkTarget ==> parenDepth >= 1)
      invariant EndsOpen(Label(0, false), Tokens(outside))
             == EndsOpen(if inLinkTarget then Target(openBrackets, parenDepth) else Label(openBrackets, false),
                         Tokens(outside[i..]))
    {
      ghost var st := if inLinkTarget then Target(openBrackets, parenDepth) else Label(openBrackets, false);
      EndsOpenStep(st, outside, i);
      if outside[i] == '\\' && i + 1 < n {
        i := i + 2;
        continue;
      }
      var c := outside[i];
      if !inLinkTarget {
        if c == '[' {
          openBrackets := openBrackets + 1;
        } else if c == ']' && openBrackets > 0 {
          openBrackets := openBrackets - 1;
          if i + 1 < n && outside[i + 1] == '(' {
            EndsOpenStep(Label(openBrackets, true), outside, i + 1);
            inLinkTarget := true;
            parenDepth := 1;
            i := i + 2;
            continue;
          }
          ClosedMattersToParenthesis(openBrackets, outside[i + 1..]);
        }
      } else {
        if c == '(' {
          parenDepth := parenDepth + 1;
        } else if c == ')' {
          parenDepth := parenDepth - 1;
          if parenDepth == 0 {
            inLinkTarget := false;
          }
        }
      }
      i := i + 1;
    }
    open := openBrackets > 0 || inLinkTarget;
    assert outside[n..] == "";
    NothingLeft(if inLinkTarget then Target(openBrackets, parenDepth) else Label(openBrackets, false));
    LinksEndClosedExactlyIf(outside);
    if EndsInTarget(outside) || EndsInLabel(outside) {
      CutLinksAreOpen(outside);
    }
  }

  /** A line ends inside inline Markdown when it holds an odd number of backticks, or when from
      some place on it opens more brackets than it closes. */
  ghost predicate EndsInsideInline(line: string) {
    var toks := Tokens(line);
    || Backticks(toks) % 2 == 1
    || exists k :: 0 <= k <= |toks| && Excess(toks[k..]) > 0
  }

  method LineEndsInsideUnmatchedInline(line: string) returns (inside: bool)
    ensures inside == EndsInsideInline(line)
  {
    var bt, openBrackets := 0, 0;
    var i, n := 0, |line|;
    while i < n
      invariant 0 <= i <= n && openBrackets >= 0
      invariant bt + Backticks(Tokens(line[i..])) == Backticks(Tokens(line))
      invariant Clamped(openBrackets, Tokens(line[i..])) == Clamped(0, Tokens(line))
    {
      TokensStep(line, i);
      if line[i] == '\\' && i + 1 < n {
        i := i + 2;
        continue;
      }
      var c := line[i];
      if c == '`' {
        bt := bt + 1;
      } else if c == '[' {
        openBrackets := openBrackets + 1;
      } else if c == ']' && openBrackets > 0 {
        openBrackets := openBrackets - 1;
      }
      i := i + 1;
    }
    ClampedIsMaximum(0, Tokens(line));
    MaxExcessIsMaximum(Tokens(line));
    assert Tokens(line)[0..] == Tokens(line);
    inside := bt % 2 == 1 || openBrackets > 0;
  }

  // ----- the final line

  /** A sentence terminator with nothing but closing punctuation after it. */
  ghost predicate EndsInSentence(line: string) {
    exists t :: 0 <= t < |line| && IsSentenceEnd(line[t]) && forall i | t < i < |line| :: IsCloser(line[i])
  }

  /** What is wrong with the last visible line: a tail that is no sentence, which only the `Full`
      kind minds, or inline Markdown left open on a line that is no fence. */
  ghost predicate Dangling(candidate: string, kind: Kind) {
    var lines := RawLines(RStrip(candidate));
    lines != [] &&
    var line := Chomp(lines[|lines| - 1]);
    (kind == Full && !EndsInSentence(Strip(line))) || (!IsFenceLine(line) && EndsInsideInline(line))
  }

  /** The loop of `_has_dangling_final_line` that looks past trailing closing punctuation. */
  method EndsWithTerminator(line: string) returns (ends: bool)
    ensures ends == EndsInSentence(line)
  {
    var lastReal := line;
    while lastReal != "" && IsCloser(lastReal[|lastReal| - 1])
      invariant lastReal <= line
      invariant forall i | |lastReal| <= i < |line| :: IsCloser(line[i])
      decreases |lastReal|
    {
      lastReal := lastReal[..|lastReal| - 1];
    }
    ends := lastReal != "" && IsSentenceEnd(lastReal[|lastReal| - 1]);
    if ends {
      assert IsSentenceEnd(line[|lastReal| - 1]);
    }
  }

  method HasDanglingFinalLine(candidate: string, kind: Kind) returns (dangling: bool)
    ensures dangling == Dangling(candidate, kind)
  {
    var stripped := RStrip(candidate);
    if stripped == "" {
      return false;
    }
    var lines := RawLines(stripped);
    var finalLine := Chomp(lines[|lines| - 1]);
    var finalStripped := Strip(finalLine);
    var endsInSentence := EndsWithTerminator(finalStripped);
    if kind == Full && !endsInSentence {
      return true;
    }
    if IsFenceLine(finalLine) {
      return false;
    }
    dangling := LineEndsInsideUnmatchedInline(finalLine);
  }
}

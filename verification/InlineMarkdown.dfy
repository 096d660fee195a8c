/** The inline Markdown that the stream filter looks for: code spans and links
    (src/kai/bot.py, lines 450 to 528). */
module InlineMarkdown {

  /** A text as the scanners see it: a backslash takes the next character with it. */
  datatype Token = Escaped(c: char) | Plain(c: char)

  function Tokens(s: string): seq<Token> {
    if s == "" then []
    else if s[0] == '\\' && |s| > 1 then [Escaped(s[1])] + Tokens(s[2..])
    else [Plain(s[0])] + Tokens(s[1..])
  }

  function Backticks(toks: seq<Token>): nat {
    if toks == [] then 0 else (if toks[0] == Plain('`') then 1 else 0) + Backticks(toks[1..])
  }

  /** Where a text that has been read so far stands: among labels, with `open` brackets not
      yet closed and `closed` telling whether the last token closed one, or inside the target
      of a link, `depth` parentheses deep. */
  datatype LinkState = Label(open: nat, closed: bool) | Target(open: nat, depth: nat)

  function Next(st: LinkState, tok: Token): LinkState {
    match st
    case Label(open, closed) =>
      if closed && tok == Plain('(') then Target(open, 1)
      else if tok == Plain('[') then Label(open + 1, false)
      else if tok == Plain(']') && open > 0 then Label(open - 1, true)
      else Label(open, false)
    case Target(open, depth) =>
      if tok == Plain('(') then Target(open, depth + 1)
      else if tok == Plain(')') then (if depth <= 1 then Label(open, false) else Target(open, depth - 1))
      else st
  }

  function Run(st: LinkState, toks: seq<Token>): LinkState
    decreases |toks|
  {
    if toks == [] then st else Run(Next(st, toks[0]), toks[1..])
  }

  /** Reading the tokens one by one without looking ahead ends inside a label or a target. */
  predicate EndsOpen(st: LinkState, toks: seq<Token>) {
    Run(st, toks).Target? || Run(st, toks).open > 0
  }

  lemma TokensStep(s: string, i: nat)
    requires i < |s|
    ensures s[i] == '\\' && i + 1 < |s| ==> Tokens(s[i..]) == [Escaped(s[i + 1])] + Tokens(s[i + 2..])
    ensures !(s[i] == '\\' && i + 1 < |s|) ==> Tokens(s[i..]) == [Plain(s[i])] + Tokens(s[i + 1..])
  {
    if s[i] == '\\' && i + 1 < |s| {
      assert s[i..][2..] == s[i + 2..];
    } else {
      assert s[i..][1..] == s[i + 1..];
    }
  }

  lemma NothingLeft(st: LinkState)
    ensures EndsOpen(st, Tokens("")) <==> st.Target? || st.open > 0
  {
  }

  lemma EndsOpenStep(st: LinkState, s: string, i: nat)
    requires i < |s|
    ensures s[i] == '\\' && i + 1 < |s| ==>
              EndsOpen(st, Tokens(s[i..])) == EndsOpen(Next(st, Escaped(s[i + 1])), Tokens(s[i + 2..]))
    ensures !(s[i] == '\\' && i + 1 < |s|) ==>
              EndsOpen(st, Tokens(s[i..])) == EndsOpen(Next(st, Plain(s[i])), Tokens(s[i + 1..]))
  {
    hide Next;
    TokensStep(s, i);
  }

  /** Having just closed a label matters only to an opening parenthesis. */
  lemma ClosedMattersToParenthesis(open: nat, s: string)
    requires s == "" || s[0] != '('
    ensures EndsOpen(Label(open, true), Tokens(s)) == EndsOpen(Label(open, false), Tokens(s))
  {
    if s != "" {
      TokensStep(s, 0);
    }
  }

  /** How many more opening than closing brackets a run of tokens holds. */
  function Excess(toks: seq<Token>): int {
    if toks == [] then 0
    else Excess(toks[1..]) + (if toks[0] == Plain('[') then 1 else if toks[0] == Plain(']') then -1 else 0)
  }

  function MaxExcess(toks: seq<Token>): int {
    if toks == [] then 0 else
      var rest := MaxExcess(toks[1..]);
      if Excess(toks) > rest then Excess(toks) else rest
  }

  lemma {:induction false} MaxExcessIsMaximum(toks: seq<Token>)
    ensures MaxExcess(toks) >= 0
    ensures MaxExcess(toks) > 0 <==> exists k :: 0 <= k <= |toks| && Excess(toks[k..]) > 0
  {
    if toks == [] {
    } else {
      MaxExcessIsMaximum(toks[1..]);
      assert toks[0..] == toks;
      if k :| 0 <= k <= |toks| && Excess(toks[k..]) > 0 {
        if k > 0 {
          assert toks[1..][k - 1..] == toks[k..];
        }
      }
      if k :| 0 <= k <= |toks| - 1 && Excess(toks[1..][k..]) > 0 {
        assert toks[1..][k..] == toks[k + 1..];
      }
    }
  }

  /** A counter that never drops below zero ends at the larger of its plain sum and the
      largest excess of a final part. */
  function Clamped(open: nat, toks: seq<Token>): nat
    decreases |toks|
  {
    if toks == [] then open
    else if toks[0] == Plain('[') then Clamped(open + 1, toks[1..])
    else if toks[0] == Plain(']') && open > 0 then Clamped(open - 1, toks[1..])
    else Clamped(open, toks[1..])
  }

  lemma {:induction false} ClampedIsMaximum(open: nat, toks: seq<Token>)
    ensures Clamped(open, toks) == if open + Excess(toks) > MaxExcess(toks) then open + Excess(toks)
        else MaxExcess(toks)
    decreases |toks|
  {
    if toks == [] {
    } else {
      MaxExcessIsMaximum(toks[1..]);
      if toks[0] == Plain('[') {
        ClampedIsMaximum(open + 1, toks[1..]);
      } else if toks[0] == Plain(']') && open > 0 {
        ClampedIsMaximum(open - 1, toks[1..]);
      } else {
        ClampedIsMaximum(open, toks[1..]);
      }
    }
  }

  // ----- what the tokens of a text are

  function Written(tok: Token): string {
    match tok
    case Escaped(c) => ['\\', c]
    case Plain(c) => [c]
  }

  function WrittenAll(toks: seq<Token>): string {
    if toks == [] then "" else Written(toks[0]) + WrittenAll(toks[1..])
  }

  /** The tokens stand for the text one after the other, and no backslash stands alone
      except as the very last character. */
  ghost predicate Spells(toks: seq<Token>, s: string) {
    WrittenAll(toks) == s && forall i | 0 <= i < |toks| - 1 :: toks[i] != Plain('\\')
  }

  lemma {:induction false} SpellsItsTokens(s: string)
    ensures Spells(Tokens(s), s)
    decreases |s|
  {
    if s != "" {
      var n := if s[0] == '\\' && |s| > 1 then 2 else 1;
      SpellsItsTokens(s[n..]);
      assert s == Written(Tokens(s)[0]) + s[n..];
      assert Tokens(s)[1..] == Tokens(s[n..]);
      assert Tokens(s)[0] == Plain('\\') ==> Tokens(s[n..]) == [];
    }
  }

  lemma {:induction false} TokensAreUnique(toks: seq<Token>)
    requires forall i | 0 <= i < |toks| - 1 :: toks[i] != Plain('\\')
    ensures Tokens(WrittenAll(toks)) == toks
  {
    if toks != [] {
      var rest := WrittenAll(toks[1..]);
      TokensAreUnique(toks[1..]);
      assert WrittenAll(toks)[|Written(toks[0])|..] == rest;
    }
  }

  lemma SpellsExactlyItsTokens(toks: seq<Token>, s: string)
    ensures Spells(toks, s) <==> toks == Tokens(s)
  {
    SpellsItsTokens(s);
    if Spells(toks, s) {
      TokensAreUnique(toks);
    }
  }

  /** How often the character occurs without a backslash before it. */
  function CountOf(toks: seq<Token>, c: char): nat {
    multiset(toks)[Plain(c)]
  }

  lemma {:induction false} CountsAreCounts(toks: seq<Token>)
    ensures Backticks(toks) == CountOf(toks, '`')
    ensures Excess(toks) == CountOf(toks, '[') as int - CountOf(toks, ']')
  {
    if toks != [] {
      assert toks == [toks[0]] + toks[1..];
      CountsAreCounts(toks[1..]);
    }
  }

  // ----- texts in which every link is closed

  /** A token of its own, a label in brackets, or a label and a target in parentheses. */
  datatype Piece =
    | One(tok: Token)
    | Reference(text: seq<Piece>)
    | Link(text: seq<Piece>, target: seq<Token>)

  function Render(p: Piece): seq<Token> {
    match p
    case One(tok) => [tok]
    case Reference(text) => [Plain('[')] + RenderAll(text) + [Plain(']')]
    case Link(text, target) =>
      [Plain('[')] + RenderAll(text) + [Plain(']'), Plain('(')] + target + [Plain(')')]
  }

  function RenderAll(ps: seq<Piece>): seq<Token> {
    if ps == [] then [] else Render(ps[0]) + RenderAll(ps[1..])
  }

  /** The target has not met the parenthesis that closes it. */
  ghost predicate StaysInTarget(target: seq<Token>) {
    forall k | 0 <= k <= |target| :: CountOf(target[..k], ')') <= CountOf(target[..k], '(')
  }

  ghost predicate IsTarget(target: seq<Token>) {
    StaysInTarget(target) && CountOf(target, ')') == CountOf(target, '(')
  }

  ghost predicate IsPiece(p: Piece, nested: bool) {
    match p
    case One(tok) => tok != Plain('[') && (nested ==> tok != Plain(']'))
    case Reference(text) => ArePieces(text, true)
    case Link(text, target) => ArePieces(text, true) && IsTarget(target)
  }

  /** Inside a label no closing bracket stands alone, and a bare label has no parenthesis
      right after it. */
  ghost predicate ArePieces(ps: seq<Piece>, nested: bool) {
    && (forall i | 0 <= i < |ps| :: IsPiece(ps[i], nested))
    && (forall i | 0 < i < |ps| :: ps[i - 1].Reference? ==> ps[i] != One(Plain('(')))
  }

  ghost predicate ClosesItsLinks(toks: seq<Token>) {
    exists ps :: ArePieces(ps, false) && RenderAll(ps) == toks
  }

  /** The text consists of single characters, escaped ones, labels and links with their targets. */
  ghost predicate HasOnlyClosedLinks(s: string) {
    exists ps :: ArePieces(ps, false) && Spells(RenderAll(ps), s)
  }

  // ----- the scan in parts

  lemma {:induction false} RunConcat(st: LinkState, a: seq<Token>, b: seq<Token>)
    ensures Run(st, a + b) == Run(Run(st, a), b)
    decreases |a|
  {
    if a == [] {
      assert a + b == b;
    } else {
      RunConcat(Next(st, a[0]), a[1..], b);
      assert (a + b)[1..] == a[1..] + b;
    }
  }

  function After(toks: seq<Token>): LinkState {
    Run(Label(0, false), toks)
  }

  lemma RunOne(st: LinkState, tok: Token)
    ensures Run(st, [tok]) == Next(st, tok)
  {
    assert [tok][1..] == [];
  }

  // ----- the pieces read so far

  /** The pieces of the whole text and of every label that is still open, outermost first. */
  ghost predicate AreLevels(levels: seq<seq<Piece>>) {
    levels != [] && forall i | 0 <= i < |levels| :: ArePieces(levels[i], i > 0)
  }

  function RenderLevels(levels: seq<seq<Piece>>): seq<Token> {
    if levels == [] then []
    else if |levels| == 1 then RenderAll(levels[0])
    else RenderLevels(levels[..|levels| - 1]) + [Plain('[')] + RenderAll(levels[|levels| - 1])
  }

  predicate EndsInReference(ps: seq<Piece>) {
    ps != [] && ps[|ps| - 1].Reference?
  }

  datatype Reading =
    | InText(levels: seq<seq<Piece>>)
    | InTarget(levels: seq<seq<Piece>>, text: seq<Piece>, target: seq<Token>)

  ghost predicate Reads(r: Reading, toks: seq<Token>, st: LinkState) {
    && AreLevels(r.levels) && |r.levels| == st.open + 1
    && match r
       case InText(levels) =>
         && st.Label? && st.closed == EndsInReference(levels[|levels| - 1]) && toks == RenderLevels(levels)
       case InTarget(levels, text, target) =>
         && st.Target? && ArePieces(text, true) && StaysInTarget(target)
         && st.depth == CountOf(target, '(') - CountOf(target, ')') + 1
         && toks == RenderLevels(levels) + Render(Reference(text)) + [Plain('(')] + target
  }

  lemma {:induction false} RenderSnoc(ps: seq<Piece>, p: Piece)
    ensures RenderAll(ps + [p]) == RenderAll(ps) + Render(p)
  {
    hide Render, RenderAll;
    if ps == [] {
      assert [p] + [] == [p] && [] + [p] == [p];
      RenderCons(p, []);
      assert RenderAll([]) == [] by { NoPieces(false); }
    } else {
      var first, rest := ps[0], ps[1..];
      assert ps == [first] + rest && ps + [p] == [first] + (rest + [p]);
      RenderSnoc(rest, p);
      RenderCons(first, rest);
      RenderCons(first, rest + [p]);
    }
  }

  lemma RenderCons(first: Piece, rest: seq<Piece>)
    ensures RenderAll([first] + rest) == Render(first) + RenderAll(rest)
  {
    hide Render;
    assert ([first] + rest)[1..] == rest;
  }

  function Snoc(levels: seq<seq<Piece>>, p: Piece): seq<seq<Piece>>
    requires levels != []
  {
    levels[..|levels| - 1] + [levels[|levels| - 1] + [p]]
  }

  lemma PiecesSnoc(ps: seq<Piece>, p: Piece, nested: bool)
    requires ArePieces(ps, nested) && IsPiece(p, nested)
    requires p == One(Plain('(')) ==> !EndsInReference(ps)
    ensures ArePieces(ps + [p], nested)
  {
    hide IsPiece;
  }

  lemma LevelsSnoc(levels: seq<seq<Piece>>, p: Piece)
    requires AreLevels(levels) && IsPiece(p, |levels| > 1)
    requires p == One(Plain('(')) ==> !EndsInReference(levels[|levels| - 1])
    ensures AreLevels(Snoc(levels, p)) && RenderLevels(Snoc(levels, p)) == RenderLevels(levels) + Render(p)
  {
    hide IsPiece, ArePieces, Render, RenderAll;
    var n := |levels| - 1;
    PiecesSnoc(levels[n], p, n > 0);
    assert AreLevels(Snoc(levels, p)) by { hide RenderLevels; }
    RenderLevelsSnoc(levels, p);
  }

  lemma RenderLevelsSnoc(levels: seq<seq<Piece>>, p: Piece)
    requires levels != []
    ensures RenderLevels(Snoc(levels, p)) == RenderLevels(levels) + Render(p)
  {
    hide Render, RenderAll;
    var n := |levels| - 1;
    RenderSnoc(levels[n], p);
    assert Snoc(levels, p)[..n] == levels[..n];
  }

  /** Every text that has been read so far is made of pieces and of what is still open. */
  lemma {:induction false} ReadingExists(toks: seq<Token>) returns (r: Reading)
    ensures Reads(r, toks, After(toks))
  {
    hide Next, Reads, After;
    if toks == [] {
      r := InText([[]]);
      NothingRead();
    } else {
      var n := |toks| - 1;
      var before := ReadingExists(toks[..n]);
      assert toks == toks[..n] + [toks[n]];
      AfterSnoc(toks[..n], toks[n]);
      if before.InText? {
        r := ReadInText(before, toks[..n], After(toks[..n]), toks[n]);
      } else {
        r := ReadInTarget(before, toks[..n], After(toks[..n]), toks[n]);
      }
    }
  }

  lemma NothingRead()
    ensures Reads(InText([[]]), [], After([]))
  {
  }

  lemma AfterSnoc(toks: seq<Token>, tok: Token)
    ensures After(toks + [tok]) == Next(After(toks), tok)
  {
    RunConcat(Label(0, false), toks, [tok]);
    RunOne(After(toks), tok);
  }

  lemma OpenTarget(levels: seq<seq<Piece>>) returns (r: Reading)
    requires AreLevels(levels) && EndsInReference(levels[|levels| - 1])
    ensures Reads(r, RenderLevels(levels) + [Plain('(')], Target(|levels| - 1, 1))
  {
    hide RenderLevels, RenderAll;
    var n := |levels| - 1;
    var top := levels[n];
    var m := |top| - 1;
    var outer := levels[..n] + [top[..m]];
    assert ArePieces(top, n > 0) && IsPiece(top[m], n > 0);
    r := InTarget(outer, top[m].text, []);
    assert AreLevels(outer) && StaysInTarget([]) by { hide IsPiece; }
    assert Snoc(outer, top[m]) == levels by { assert top[..m] + [top[m]] == top; }
    LevelsSnoc(outer, top[m]);
  }

  lemma NoPieces(nested: bool)
    ensures ArePieces([], nested) && RenderAll([]) == []
  {
  }

  lemma OneMoreLevel(levels: seq<seq<Piece>>)
    requires AreLevels(levels)
    ensures AreLevels(levels + [[]])
  {
    hide ArePieces;
    NoPieces(true);
  }

  lemma OpenLabel(levels: seq<seq<Piece>>)
    requires AreLevels(levels)
    ensures Reads(InText(levels + [[]]), RenderLevels(levels) + [Plain('[')], Label(|levels|, false))
  {
    hide ArePieces, RenderAll, RenderLevels, AreLevels;
    var deeper := levels + [[]];
    OneMoreLevel(levels);
    NoPieces(true);
    assert levels != [] by { LevelsAreSome(levels); }
    RenderInnermost(deeper);
    assert deeper[..|levels|] == levels && deeper[|levels|] == [];
  }

  lemma LevelsAreSome(levels: seq<seq<Piece>>)
    requires AreLevels(levels)
    ensures levels != []
  {
  }

  lemma RenderInnermost(levels: seq<seq<Piece>>)
    requires |levels| > 1
    ensures RenderLevels(levels)
         == RenderLevels(levels[..|levels| - 1]) + ([Plain('[')] + RenderAll(levels[|levels| - 1]))
  {
    hide RenderAll;
  }

  lemma InnermostIsClosed(levels: seq<seq<Piece>>)
    requires AreLevels(levels) && |levels| > 1
    ensures AreLevels(levels[..|levels| - 1]) && IsPiece(Reference(levels[|levels| - 1]), |levels| - 1 > 1)
  {
    hide ArePieces;
  }

  lemma CloseLabel(levels: seq<seq<Piece>>)
    requires AreLevels(levels) && |levels| > 1
    ensures Reads(InText(Snoc(levels[..|levels| - 1], Reference(levels[|levels| - 1]))),
                  RenderLevels(levels) + [Plain(']')], Label(|levels| - 2, true))
  {
    hide ArePieces, RenderAll, RenderLevels, AreLevels, IsPiece;
    var n := |levels| - 1;
    var outer, closed := levels[..n], Reference(levels[n]);
    InnermostIsClosed(levels);
    RenderInnermost(levels);
    LevelsSnoc(outer, closed);
  }

  lemma ReadInText(before: Reading, toks: seq<Token>, st: LinkState, tok: Token) returns (r: Reading)
    requires Reads(before, toks, st) && before.InText?
    ensures Reads(r, toks + [tok], Next(st, tok))
  {
    hide RenderLevels, RenderAll, ArePieces, AreLevels;
    var levels := before.levels;
    if st.closed && tok == Plain('(') {
      r := OpenTarget(levels);
    } else if tok == Plain('[') {
      r := InText(levels + [[]]);
      OpenLabel(levels);
    } else if tok == Plain(']') && st.open > 0 {
      r := InText(Snoc(levels[..st.open], Reference(levels[st.open])));
      CloseLabel(levels);
    } else {
      r := InText(Snoc(levels, One(tok)));
      LevelsSnoc(levels, One(tok));
    }
  }

  lemma TargetSnoc(target: seq<Token>, tok: Token)
    requires StaysInTarget(target)
    ensures forall c :: CountOf(target + [tok], c) == CountOf(target, c) + (if tok == Plain(c) then 1 else 0)
    ensures CountOf(target + [tok], ')') <= CountOf(target + [tok], '(') ==> StaysInTarget(target + [tok])
  {
    forall k | 0 <= k <= |target|
      ensures (target + [tok])[..k] == target[..k]
    {
    }
    assert (target + [tok])[..|target| + 1] == target + [tok];
    if CountOf(target + [tok], ')') <= CountOf(target + [tok], '(') {
      forall k | 0 <= k <= |target| + 1
        ensures CountOf((target + [tok])[..k], ')') <= CountOf((target + [tok])[..k], '(')
      {
      }
    }
  }

  lemma ReadInTarget(before: Reading, toks: seq<Token>, st: LinkState, tok: Token) returns (r: Reading)
    requires Reads(before, toks, st) && before.InTarget?
    ensures Reads(r, toks + [tok], Next(st, tok))
  {
    hide RenderLevels, RenderAll, ArePieces, AreLevels, StaysInTarget, CountOf;
    var InTarget(levels, text, target) := before;
    TargetSnoc(target, tok);
    assert CountOf(target, ')') <= CountOf(target, '(') by { WholeTarget(target); }
    if tok == Plain(')') && st.depth <= 1 {
      r := InText(Snoc(levels, Link(text, target)));
      LevelsSnoc(levels, Link(text, target));
    } else {
      r := InTarget(levels, text, target + [tok]);
    }
  }

  lemma WholeTarget(target: seq<Token>)
    requires StaysInTarget(target)
    ensures CountOf(target, ')') <= CountOf(target, '(')
  {
    assert target[..|target|] == target;
  }

  // ----- reading whole pieces

  /** Inside a target only its own parentheses count. */
  lemma {:induction false} RunTarget(open: nat, depth: nat, target: seq<Token>)
    requires depth >= 1 && StaysInTarget(target)
    ensures CountOf(target, ')') <= CountOf(target, '(')
    ensures Run(Target(open, depth), target) == Target(open, depth + CountOf(target, '(') - CountOf(target, ')'))
  {
    WholeTarget(target);
    if target != [] {
      var n := |target| - 1;
      assert target == target[..n] + [target[n]];
      assert StaysInTarget(target[..n]) by {
        forall k | 0 <= k <= n
          ensures target[..n][..k] == target[..k]
        {
        }
      }
      RunTarget(open, depth, target[..n]);
      TargetSnoc(target[..n], target[n]);
      RunConcat(Target(open, depth), target[..n], [target[n]]);
      RunOne(Run(Target(open, depth), target[..n]), target[n]);
    }
  }

  /** Reading a piece leaves the number of open labels as it was. */
  lemma {:induction false} RunPiece(st: LinkState, p: Piece)
    requires st.Label? && IsPiece(p, st.open > 0) && (st.closed ==> p != One(Plain('(')))
    ensures Run(st, Render(p)) == Label(st.open, p.Reference?)
    decreases p
  {
    match p
    case One(tok) => RunOne(st, tok);
    case Reference(text) => RunReference(st, text);
    case Link(text, target) =>
      RunReference(st, text);
      RunLink(st, Render(Reference(text)), target);
      assert Render(p) == Render(Reference(text)) + [Plain('(')] + target + [Plain(')')];
  }

  lemma RunLink(st: LinkState, closed: seq<Token>, target: seq<Token>)
    requires Run(st, closed).Label? && Run(st, closed).closed && IsTarget(target)
    ensures Run(st, closed + [Plain('(')] + target + [Plain(')')]) == Label(Run(st, closed).open, false)
  {
    var open := Run(st, closed).open;
    RunOne(Run(st, closed), Plain('('));
    RunConcat(st, closed, [Plain('(')]);
    RunTarget(open, 1, target);
    RunConcat(st, closed + [Plain('(')], target);
    RunOne(Target(open, 1), Plain(')'));
    RunConcat(st, closed + [Plain('(')] + target, [Plain(')')]);
  }

  lemma {:induction false} RunReference(st: LinkState, text: seq<Piece>)
    requires st.Label? && ArePieces(text, true)
    ensures Run(st, Render(Reference(text))) == Label(st.open, true)
    decreases text, 1
  {
    var inner := Label(st.open + 1, false);
    RunPieces(inner, text);
    RunConcat(st, [Plain('[')], RenderAll(text));
    RunConcat(st, [Plain('[')] + RenderAll(text), [Plain(']')]);
    RunOne(st, Plain('['));
    RunOne(Run(inner, RenderAll(text)), Plain(']'));
  }

  lemma {:induction false} RunPieces(st: LinkState, ps: seq<Piece>)
    requires st.Label? && ArePieces(ps, st.open > 0) && (st.closed ==> ps == [] || ps[0] != One(Plain('(')))
    ensures Run(st, RenderAll(ps)).Label? && Run(st, RenderAll(ps)).open == st.open
    decreases ps, 0
  {
    if ps != [] {
      RunPiece(st, ps[0]);
      RunPieces(Run(st, Render(ps[0])), ps[1..]);
      RunConcat(st, Render(ps[0]), RenderAll(ps[1..]));
    }
  }

  // ----- what the scan decides

  /** Nothing is open at the end exactly for the texts that consist of whole pieces. */
  lemma EndsClosedExactlyIf(toks: seq<Token>)
    ensures !EndsOpen(Label(0, false), toks) <==> ClosesItsLinks(toks)
  {
    hide AreLevels;
    if ps :| ArePieces(ps, false) && RenderAll(ps) == toks {
      RunPieces(Label(0, false), ps);
    }
    if !EndsOpen(Label(0, false), toks) {
      var r := ReadingExists(toks);
      assert ArePieces(r.levels[0], false) by { OutermostPieces(r.levels); }
      assert RenderAll(r.levels[0]) == toks;
    }
  }

  lemma OutermostPieces(levels: seq<seq<Piece>>)
    requires AreLevels(levels)
    ensures ArePieces(levels[0], false)
  {
  }

  lemma LinksEndClosedExactlyIf(s: string)
    ensures !EndsOpen(Label(0, false), Tokens(s)) <==> HasOnlyClosedLinks(s)
  {
    hide ArePieces, RenderAll, EndsOpen, Spells;
    EndsClosedExactlyIf(Tokens(s));
    if ps :| ArePieces(ps, false) && RenderAll(ps) == Tokens(s) {
      SpellsExactlyItsTokens(RenderAll(ps), s);
    }
    if ps :| ArePieces(ps, false) && Spells(RenderAll(ps), s) {
      SpellsExactlyItsTokens(RenderAll(ps), s);
    }
  }

  // ----- texts that are cut inside a link

  predicate EndsInBackslash(s: string) {
    s != "" && s[|s| - 1] == '\\'
  }

  function PlainAll(s: string): (r: seq<Token>)
    ensures |r| == |s| && forall i | 0 <= i < |s| :: r[i] == Plain(s[i])
  {
    seq(|s|, i requires 0 <= i < |s| => Plain(s[i]))
  }

  /** The characters of the target do not close it: no prefix holds more closing than opening
      parentheses. */
  ghost predicate NeverCloses(target: string) {
    '\\' !in target && StaysInTarget(PlainAll(target))
  }

  /** The text stops in a label: after a bracket, whatever stands before it, come no bracket or
      parenthesis that closes and no backslash. */
  ghost predicate EndsInLabel(s: string) {
    exists before: string, text: string ::
      s == before + "[" + text && !EndsInBackslash(before)
      && ']' !in text && ')' !in text && '\\' !in text
  }

  /** The text stops in the target of a link. */
  ghost predicate EndsInTarget(s: string) {
    exists before: string, target: string ::
      s == before + "](" + target && EndsInLabel(before) && NeverCloses(target)
  }

  lemma {:induction false} TokensConcat(a: string, b: string)
    requires !EndsInBackslash(a)
    ensures Tokens(a + b) == Tokens(a) + Tokens(b)
    decreases |a|
  {
    hide Tokens;
    var s := a + b;
    if a == "" {
      assert Tokens(a) == [] by { TokensOfPlain(a); }
      assert s == b;
    } else {
      TokensStep(a, 0);
      TokensStep(s, 0);
      assert a[0..] == a && s[0..] == s;
      if a[0] == '\\' {
        TokensConcat(a[2..], b);
        assert s[2..] == a[2..] + b;
      } else {
        TokensConcat(a[1..], b);
        assert s[1..] == a[1..] + b;
      }
    }
  }

  lemma {:induction false} TokensOfPlain(s: string)
    requires '\\' !in s
    ensures Tokens(s) == PlainAll(s)
  {
    if s != "" {
      TokensOfPlain(s[1..]);
    }
  }

  predicate IsInside(st: LinkState) {
    if st.Target? then st.depth >= 1 else st.open > 0 && !st.closed
  }

  lemma {:induction false} StaysInside(st: LinkState, toks: seq<Token>)
    requires IsInside(st) && Plain(']') !in toks && Plain(')') !in toks
    ensures IsInside(Run(st, toks))
    decreases |toks|
  {
    if toks != [] {
      StaysInside(Next(st, toks[0]), toks[1..]);
    }
  }

  lemma TargetsAreDeep(toks: seq<Token>)
    ensures After(toks).Target? ==> After(toks).depth >= 1
  {
    var r := ReadingExists(toks);
    if r.InTarget? {
      WholeTarget(r.target);
    }
  }

  lemma RunAppended(before: string, rest: string)
    requires !EndsInBackslash(before) && '\\' !in rest
    ensures After(Tokens(before + rest)) == Run(After(Tokens(before)), PlainAll(rest))
  {
    hide Tokens, Run, PlainAll;
    TokensConcat(before, rest);
    TokensOfPlain(rest);
    RunConcat(Label(0, false), Tokens(before), Tokens(rest));
  }

  lemma PlainConcat(a: string, b: string)
    ensures PlainAll(a + b) == PlainAll(a) + PlainAll(b)
  {
  }

  lemma LabelIsOpen(before: string, text: string)
    requires !EndsInBackslash(before) && ']' !in text && ')' !in text && '\\' !in text
    ensures IsInside(After(Tokens(before + "[" + text)))
  {
    hide *;
    assert before + "[" + text == before + ("[" + text);
    assert '\\' !in "[" + text;
    RunAppended(before, "[" + text);
    var st := After(Tokens(before));
    assert PlainAll("[") == [Plain('[')];
    PlainConcat("[", text);
    RunConcat(st, [Plain('[')], PlainAll(text));
    RunOne(st, Plain('['));
    assert IsInside(Next(st, Plain('['))) by { OpensLabel(Tokens(before)); }
    StaysInside(Next(st, Plain('[')), PlainAll(text));
  }

  lemma OpensLabel(toks: seq<Token>)
    ensures IsInside(Next(After(toks), Plain('[')))
  {
    hide After;
    TargetsAreDeep(toks);
  }

  lemma LabelsAreOpen(s: string)
    requires EndsInLabel(s)
    ensures IsInside(After(Tokens(s))) && !EndsInBackslash(s)
  {
    var before: string, text: string :| s == before + "[" + text && !EndsInBackslash(before)
      && ']' !in text && ')' !in text && '\\' !in text;
    hide Tokens, After, EndsInLabel;
    LabelIsOpen(before, text);
  }

  lemma TargetsAreOpen(s: string)
    requires EndsInTarget(s)
    ensures After(Tokens(s)).Target?
  {
    var before: string, target: string :| s == before + "](" + target && EndsInLabel(before) && NeverCloses(target);
    hide Tokens, After, Run, EndsInTarget, EndsInLabel, PlainAll, IsInside;
    LabelsAreOpen(before);
    assert s == before + ("](" + target);
    assert '\\' !in "](" + target;
    RunAppended(before, "](" + target);
    assert PlainAll("](") == [Plain(']'), Plain('(')];
    PlainConcat("](", target);
    RunIntoTarget(After(Tokens(before)), PlainAll(target));
  }

  lemma RunIntoTarget(st: LinkState, target: seq<Token>)
    requires IsInside(st) && StaysInTarget(target)
    ensures Run(st, [Plain(']'), Plain('(')] + target).Target?
  {
    hide Run;
    RunConcat(st, [Plain(']'), Plain('(')], target);
    RunConcat(st, [Plain(']')], [Plain('(')]);
    assert [Plain(']')] + [Plain('(')] == [Plain(']'), Plain('(')];
    RunOne(st, Plain(']'));
    RunOne(Next(st, Plain(']')), Plain('('));
    var inner := Next(Next(st, Plain(']')), Plain('('));
    assert inner.Target?;
    RunTarget(inner.open, inner.depth, target);
  }

  lemma CutLinksAreOpen(s: string)
    requires EndsInLabel(s) || EndsInTarget(s)
    ensures EndsOpen(Label(0, false), Tokens(s))
  {
    if EndsInTarget(s) {
      TargetsAreOpen(s);
    } else {
      LabelsAreOpen(s);
    }
  }
}

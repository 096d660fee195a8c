/** When a published prefix is never retracted: exactly if a settled boundary holds it (src/kai/bot.py,
    lines 585 to 789). */
module StreamRetraction {
  import opened Text
  import opened InlineMarkdown
  import opened StreamChecks
  import opened StreamCuts
  import opened StreamFilter
  import opened StreamStability

  // ----- settled boundaries

  /** The line that begins at q is complete, or it begins with a list marker and white space. */
  predicate IsDecided(text: string, q: nat) {
    && q < |text|
    && var e := LineEnd(text, q);
       e < |text| || 0 < FormingEnd(text[q..e]) < |text[q..e]|
  }

  /** The boundaries of a text, trailing white space included, that no continuation can move: a blank
      line, a sentence with something after it, a closing fence, and a list item whose next line is
      decided. The cut of a long span and the end of the text are never settled. */
  ghost predicate IsSettled(text: string, c: nat, kind: Kind) {
    match kind
    case Paragraph => BlankLineAt(text, c)
    case Sentence => c < |text| && IsLineCut(Sentence, text, c)
    case ClosedFence => IsLineCut(ClosedFence, text, c)
    case ListItem => IsLineCut(ListItem, text, c) && IsDecided(text, c + 1)
    case _ => false
  }

  ghost predicate SettledPasses(text: string, c: nat, kind: Kind) {
    IsSettled(text, c, kind) && c <= |text| && Passes(RStrip(text[..c]), kind)
  }

  /** A settled boundary passes the checks at or after the end of the prefix. */
  ghost predicate IsHeldBySettled(text: string, shown: string) {
    exists c: nat, kind :: SettledPasses(text, c, kind) && shown <= RStrip(text[..c])
  }

  /** Whatever is appended to the text, the filter goes on publishing something that begins with it. */
  ghost predicate IsNeverRetracted(text: string, shown: string) {
    forall more, r | IsLongestPublishable(text + more, r) :: r.Publish? && shown <= r.text
  }

  // ----- settled boundaries stay

  lemma FormingAgrees(line: string, longer: string)
    requires line <= longer
    requires 0 < FormingEnd(line) < |line| || 0 < FormingEnd(longer) < |line|
    ensures FormingEnd(longer) == FormingEnd(line)
  {
    SkipsAgree(line, longer, 0);
    var a := SkipSpaces(line, 0);
    SkipsAgree(line, longer, a);
    SkipsGrow(line, longer, 0);
    SkipsGrow(line, longer, a);
    assert forall i | 0 <= i < |line| :: longer[i] == line[i];
  }

  lemma SkipsGrow(line: string, longer: string, i: nat)
    requires line <= longer && i <= |line|
    ensures SkipSpaces(line, i) <= SkipSpaces(longer, i) && SkipDigits(line, i) <= SkipDigits(longer, i)
    decreases |line| - i
  {
    if i < |line| {
      assert longer[i] == line[i];
      SkipsGrow(line, longer, i + 1);
    }
  }

  lemma ListItemStays(text: string, longer: string, p: nat, c: nat)
    requires text <= longer && LineCut(ListItem, text, p, c) && IsDecided(text, c + 1)
    ensures LineCut(ListItem, longer, p, c)
  {
    hide OpenFence, IsFenceLine, IsLineSentenceCut, IsListItem, FormingEnd, Strip, LineEnd;
    LineEndGrows(text, longer, p);
    LineEndGrows(text, longer, c + 1);
    assert longer[..p] == text[..p] && longer[p..c] == text[p..c];
    assert LineStart(longer, p);
    var q, e, e' := c + 1, LineEnd(text, c + 1), LineEnd(longer, c + 1);
    if e < |text| {
      assert longer[q..e'] == text[q..e];
    } else {
      assert text[q..e] <= longer[q..e'];
      FormingAgrees(text[q..e], longer[q..e']);
      FormingIsVisible(text[q..e], longer[q..e']);
    }
  }

  /** A line that begins with a marker and white space is a forming marker however it goes on. */
  lemma FormingIsVisible(line: string, longer: string)
    requires line <= longer && 0 < FormingEnd(line) < |line| && FormingEnd(longer) == FormingEnd(line)
    requires IsFormingMarker(line) || Strip(line) == ""
    ensures IsFormingMarker(longer)
  {
    hide FormingEnd, Strip;
    var m := FormingEnd(line);
    assert longer[m] == line[m];
    if Strip(line) == "" {
      StripBlank(line);
    }
  }

  lemma ClosingFenceStays(text: string, longer: string)
    requires text <= longer && IsLineCut(ClosedFence, text, |text|) && Passes(RStrip(text), ClosedFence)
    ensures exists d: nat :: IsLineCut(ClosedFence, longer, d) && |text| <= d <= |longer|
                             && Passes(RStrip(longer[..d]), ClosedFence)
  {
    hide OpenFence, IsFenceLine, RStrip, Unbalanced, Outside, LineEnd, Dangling, LineCut, Passes;
    var n := |text|;
    assert text[..n] == text;
    var p: nat :| LineCut(ClosedFence, text, p, n);
    ClosingFenceLineGrows(text, text, p);
    ClosingFenceLineGrows(text, longer, p);
    assert LineEnd(text, p) == n;
    var d := LineEnd(longer, p);
    ClosedFenceFailsOnlyInline(text, n);
    ClosedFenceFailsOnlyInline(longer, d);
    SameOutsideSameBalance(RStrip(text), RStrip(longer[..d]));
  }

  /** Once something visible follows, a settled boundary that passes is a publishable one. */
  lemma SettledStays(text: string, longer: string, c: nat, kind: Kind)
    requires text <= longer && |text| < |longer| && RStrip(longer) == longer && SettledPasses(text, c, kind)
    ensures exists d: nat :: Publishable(longer, d, kind) && d <= |longer| && RStrip(text[..c]) <= RStrip(longer[..d])
  {
    hide OpenFence, IsFenceLine, RStrip, LineEnd, LineCut, Passes, IsDecided;
    assert longer[..c] == text[..c];
    match kind {
      case Paragraph =>
        var last := |longer| - 1;
        assert !IsSpace(longer[last]) by { LastIsVisible(longer); }
        assert longer[c] == text[c] && longer[c + 1] == text[c + 1];
        assert c + 2 <= last;
        assert Publishable(longer, c, kind);
      case ListItem =>
        var p: nat :| LineCut(ListItem, text, p, c);
        ListItemStays(text, longer, p, c);
        assert Publishable(longer, c, kind);
      case Sentence =>
        var p: nat :| LineCut(Sentence, text, p, c);
        FirmLineCutStays(Sentence, text, longer, p, c);
        assert Publishable(longer, c, kind);
      case ClosedFence =>
        if c < |text| {
          var p: nat :| LineCut(ClosedFence, text, p, c);
          FirmLineCutStays(ClosedFence, text, longer, p, c);
          assert Publishable(longer, c, kind);
        } else {
          assert text[..c] == text;
          ClosingFenceStays(text, longer);
          var d: nat :| IsLineCut(ClosedFence, longer, d) && |text| <= d <= |longer|
              && Passes(RStrip(longer[..d]), kind);
          assert Publishable(longer, d, kind);
          RStripMonotone(longer, c, d);
        }
    }
  }

  lemma LastIsVisible(s: string)
    requires RStrip(s) == s && s != ""
    ensures !IsSpace(s[|s| - 1])
  {
  }

  /** Appending white space only leaves the stripped text as it is; otherwise it becomes longer than the text. */
  lemma WhatIsAppended(text: string, more: string)
    ensures var w := RStrip(text + more);
            if |w| <= |text| then w == RStrip(text) else text <= w
    ensures RStrip(RStrip(text + more)) == RStrip(text + more)
  {
    hide RStrip;
    var all, w := text + more, RStrip(text + more);
    RStripDropsSpace(all);
    RStripUnique(w, w);
    if |w| <= |text| {
      assert w <= text;
      forall i | |w| <= i < |text|
        ensures IsSpace(text[i])
      {
        assert all[i] == text[i];
      }
      RStripUnique(text, w);
    } else {
      assert w[..|text|] == text;
    }
  }

  lemma SettledHolds(text: string, more: string, c: nat, kind: Kind, r: Publication)
    requires Publishable(RStrip(text), c, kind) && IsHeldBySettled(text, RStrip(RStrip(text)[..c]))
    requires IsLongestPublishable(text + more, r)
    ensures r.Publish? && RStrip(RStrip(text)[..c]) <= r.text
  {
    hide RStrip, Passes, IsSettled, IsParagraphCut, IsLineCut, IsLongSpanCut;
    var longer := RStrip(text + more);
    WhatIsAppended(text, more);
    if |longer| > |text| {
      var d: nat, k :| SettledPasses(text, d, k) && RStrip(RStrip(text)[..c]) <= RStrip(text[..d]);
      SettledStays(text, longer, d, k);
    }
  }

  // ----- nothing else does

  /** A continuation that takes back whatever is not settled: a letter, a backtick if that leaves the
      backticks odd, and a new line. */
  function Challenge(text: string): string {
    "b" + (if Backticks(Tokens(Outside(text + "b"))) % 2 == 1 then "" else "`") + "\nb"
  }

  lemma {:induction false} OneMoreBacktick(s: string)
    ensures Tokens(s + "b" + "`") == Tokens(s + "b") + [Plain('`')]
    decreases |s|
  {
    var long, short := s + "b" + "`", s + "b";
    TokensStep(long, 0);
    TokensStep(short, 0);
    if s == "" {
      TokensStep(long, 1);
      assert short[1..] == "" && long[2..] == "";
    } else if s[0] == '\\' && |s| == 1 {
      TokensStep(long, 2);
      assert short[2..] == "" && long[3..] == "";
    } else {
      var n := if s[0] == '\\' then 2 else 1;
      OneMoreBacktick(s[n..]);
      assert long[n..] == s[n..] + "b" + "`" && short[n..] == s[n..] + "b";
    }
  }

  lemma {:induction false} BacktickCounts(toks: seq<Token>)
    ensures Backticks(toks + [Plain('`')]) == Backticks(toks) + 1
  {
    if toks != [] {
      assert (toks + [Plain('`')])[1..] == toks[1..] + [Plain('`')];
      BacktickCounts(toks[1..]);
    } else {
      assert toks + [Plain('`')] == [Plain('`')];
      assert [Plain('`')][1..] == [];
    }
  }

  /** The challenged text as its lines: those before p, the grown line up to m, and the letter. */
  ghost predicate IsChallenged(text: string, p: nat, longer: string, m: nat) {
    && p <= |text| < m && LineStart(text, p) && LineEnd(text, p) == |text|
    && longer == text + Challenge(text) && m + 2 == |longer| && RStrip(longer) == longer
    && LineEnd(longer, p) == m && LineEnd(longer, m + 1) == m + 2
    && longer[|text|] == 'b' && longer[m] == '\n' && longer[m + 1] == 'b'
    && longer[..m] == text + "b" + (if m == |text| + 1 then "" else "`")
    && (m == |text| + 1 || m == |text| + 2)
  }

  lemma LastLineStart(text: string) returns (p: nat)
    ensures p <= |text| && LineStart(text, p) && LineEnd(text, p) == |text|
  {
    p := |text|;
    while !LineStart(text, p)
      invariant p <= |text| && LineEnd(text, p) == |text|
      decreases p
    {
      p := p - 1;
    }
  }

  lemma Challenged(text: string) returns (p: nat, longer: string, m: nat)
    ensures IsChallenged(text, p, longer, m)
  {
    hide Outside, Tokens, Backticks, RStrip;
    p := LastLineStart(text);
    longer := text + Challenge(text);
    m := |longer| - 2;
    NoBreakBefore(text, p);
    assert forall i | p <= i < m :: longer[i] != '\n';
    LineEndUnique(longer, p, m);
    LineEndUnique(longer, m + 1, m + 2);
    RStripUnique(longer, longer);
    assert longer[..m] == text + "b" + (if m == |text| + 1 then "" else "`");
  }

  /** A line of the challenged text is a line of the text, the grown line, or the letter. */
  lemma LineOfChallenged(text: string, p: nat, longer: string, m: nat, q: nat)
    requires IsChallenged(text, p, longer, m) && q < |longer| && LineStart(longer, q)
    ensures q == p || q == m + 1 || (q < p && LineStart(text, q) && LineEnd(text, q) == LineEnd(longer, q) < p)
  {
    hide RStrip, Outside, Tokens, Backticks, Challenge;
    NoStartsInside(longer, p);
    if q < p {
      assert LineStart(longer, p) && longer[p - 1] == text[p - 1] == '\n';
      NoBreakBefore(longer, q);
      var e := LineEnd(longer, q);
      assert e < p;
      assert forall i | 0 <= i < |text| :: longer[i] == text[i];
      LineEndUnique(text, q, e);
    } else if q > m {
      assert q == m + 1;
    }
  }

  lemma GrownLine(text: string, p: nat, longer: string, m: nat)
    requires IsChallenged(text, p, longer, m)
    ensures var line := text[p..];
            && |line| + p == |text| && line <= longer[p..m] && |line| < m - p
            && longer[p..m][|line|] == 'b' && (IsFenceLine(longer[p..m]) <==> IsFenceLine(line))
            && (m == |text| + 2 ==> longer[p..m][|line| + 1] == '`')
            && longer[..p] == text[..p]
  {
    hide RStrip, Outside, Tokens, Backticks, Challenge;
    var line, grown := text[p..], longer[p..m];
    assert grown[|line|] == longer[|text|];
    NoFenceAtLetter(line, grown);
    assert m == |text| + 2 ==> longer[..m][|text| + 1] == '`';
  }

  lemma NoFenceAtLetter(line: string, grown: string)
    requires line <= grown && |line| < |grown| && grown[|line|] == 'b'
    ensures IsFenceLine(grown) <==> IsFenceLine(line)
  {
    assert forall i | 0 <= i < |line| :: grown[i] == line[i];
  }

  lemma SentenceSurvives(line: string, grown: string, k: nat)
    requires line <= grown && |line| < |grown| <= |line| + 2 && grown[|line|] == 'b'
    requires |grown| == |line| + 2 ==> grown[|line| + 1] == '`'
    requires IsLineSentenceCut(grown, k)
    ensures k < |line| && IsLineSentenceCut(line, k)
  {
    hide OrderedMarkerEnd;
    var t :| OrderedMarkerEnd(grown) <= t < k && IsSentenceEnd(grown[t]) && forall i | t < i < k :: IsTail(grown[i]);
    assert forall i | 0 <= i < |line| :: grown[i] == line[i];
    assert t < |line|;
    assert !IsTail(grown[|line|]) && !IsSpace(grown[|line|]);
    assert k < |line|;
    MarkerAgrees(line, grown, t);
    assert SentenceRun(line, OrderedMarkerEnd(line), k);
  }

  lemma MarkerAgrees(line: string, longer: string, t: nat)
    requires line <= longer && t + 1 < |line| && IsSentenceEnd(line[t])
    ensures OrderedMarkerEnd(longer) == OrderedMarkerEnd(line)
  {
    SkipsPassNoSentenceEnd(line, 0, t);
    SkipsAgree(line, longer, 0);
    var a := SkipSpaces(line, 0);
    SkipsPassNoSentenceEnd(line, a, t);
    SkipsAgree(line, longer, a);
    var b := SkipDigits(line, a);
    assert longer[b] == line[b] && longer[b + 1] == line[b + 1];
  }

  lemma SurvivingSentence(text: string, p: nat, longer: string, m: nat, q: nat, c: nat)
    requires IsChallenged(text, p, longer, m) && LineCut(Sentence, longer, q, c)
    ensures c < |text| && LineCut(Sentence, text, q, c)
  {
    hide OpenFence, IsFenceLine, IsLineSentenceCut, RStrip, LineEnd, Challenge, IsListItem, FormingEnd, Strip;
    LineOfChallenged(text, p, longer, m, q);
    assert forall i | 0 <= i < |text| :: longer[i] == text[i];
    assert longer[m + 1..m + 2] == "b" && text[p..|text|] == text[p..];
    if q == m + 1 {
      NoSentenceInLetter(c - q);
      assert false;
    } else if q == p {
      GrownLine(text, p, longer, m);
      SentenceSurvives(text[p..], longer[p..m], c - p);
    } else {
      assert longer[q..LineEnd(longer, q)] == text[q..LineEnd(text, q)] && longer[..q] == text[..q];
    }
  }

  lemma NoSentenceInLetter(k: nat)
    ensures !IsLineSentenceCut("b", k)
  {
  }

  lemma SurvivingListItem(text: string, p: nat, longer: string, m: nat, q: nat, c: nat)
    requires IsChallenged(text, p, longer, m) && LineCut(ListItem, longer, q, c)
    ensures c < |text| && LineCut(ListItem, text, q, c) && IsDecided(text, c + 1)
  {
    hide OpenFence, IsFenceLine, IsLineSentenceCut, RStrip, LineEnd, Challenge, IsListItem, FormingEnd, Strip,
        IsFormingMarker, IsDecided;
    LineOfChallenged(text, p, longer, m, q);
    assert forall i | 0 <= i < |text| :: longer[i] == text[i];
    NothingInLetter();
    assert longer[m + 1..m + 2] == "b";
    if q == p {
      assert false;
    }
    assert q < p;
    assert longer[q..c] == text[q..c];
    SurvivingNextLine(text, p, longer, m, c + 1);
  }

  /** The line after a list item of the challenged text is decided already in the text. */
  lemma SurvivingNextLine(text: string, p: nat, longer: string, m: nat, q: nat)
    requires IsChallenged(text, p, longer, m) && q <= p && LineStart(longer, q)
    requires var line := longer[q..LineEnd(longer, q)]; Strip(line) == "" || IsFormingMarker(line)
    ensures q < |text| && IsDecided(text, q)
    ensures var line := text[q..LineEnd(text, q)]; Strip(line) == "" || IsFormingMarker(line)
  {
    hide RStrip, LineEnd, Challenge, Strip, IsFormingMarker, IsDecided;
    LineOfChallenged(text, p, longer, m, q);
    if q == p {
      GrownLineIsDecided(text, p, longer, m);
    } else {
      CompleteLineIsDecided(text, longer, q);
    }
  }

  lemma CompleteLineIsDecided(text: string, longer: string, q: nat)
    requires text <= longer && q < |text| && LineEnd(text, q) == LineEnd(longer, q) < |text|
    ensures IsDecided(text, q) && text[q..LineEnd(text, q)] == longer[q..LineEnd(longer, q)]
  {
    hide LineEnd, FormingEnd;
  }

  lemma GrownLineIsDecided(text: string, p: nat, longer: string, m: nat)
    requires IsChallenged(text, p, longer, m)
    requires Strip(longer[p..m]) == "" || IsFormingMarker(longer[p..m])
    ensures p < |text| && IsDecided(text, p) && text[p..LineEnd(text, p)] == text[p..] && IsFormingMarker(text[p..])
  {
    hide RStrip, LineEnd, Challenge, FormingEnd, Strip, IsFormingMarker, IsFenceLine;
    GrownLine(text, p, longer, m);
    FormingBeforeLetter(text[p..], longer[p..m]);
    assert text[p..|text|] == text[p..];
  }

  lemma NothingInLetter()
    ensures Strip("b") != "" && !IsFormingMarker("b") && !IsFenceLine("b")
  {
    hide Strip;
    var b := "b";
    StripBlank(b);
    assert !IsSpace(b[0]);
    assert SkipDigits(b, 0) == 0 == SkipSpaces(b, 0);
  }

  lemma FormingBeforeLetter(line: string, grown: string)
    requires line <= grown && |line| < |grown| && grown[|line|] == 'b'
    requires Strip(grown) == "" || IsFormingMarker(grown)
    ensures 0 < FormingEnd(line) < |line| && IsFormingMarker(line)
  {
    hide Strip;
    StripBlank(grown);
    assert !IsSpace(grown[|line|]);
    SkipsStopAtLetter(grown, 0, |line|);
    SkipsStopAtLetter(grown, SkipSpaces(grown, 0), |line|);
    assert FormingEnd(grown) < |line|;
    FormingAgrees(line, grown);
  }

  lemma SkipsStopAtLetter(line: string, i: nat, at: nat)
    requires i <= at < |line| && line[at] == 'b'
    ensures SkipSpaces(line, i) <= at && SkipDigits(line, i) <= at
    decreases at - i
  {
    if i < at {
      SkipsStopAtLetter(line, i + 1, at);
    }
  }

  lemma SurvivingClosedFence(text: string, p: nat, longer: string, m: nat, q: nat, c: nat)
    requires IsChallenged(text, p, longer, m) && LineCut(ClosedFence, longer, q, c)
    ensures if q == p then c == m && LineCut(ClosedFence, text, p, |text|)
            else c < |text| && LineCut(ClosedFence, text, q, c)
  {
    hide OpenFence, IsFenceLine, IsLineSentenceCut, RStrip, LineEnd, Challenge, IsListItem, FormingEnd, Strip;
    LineOfChallenged(text, p, longer, m, q);
    assert forall i | 0 <= i < |text| :: longer[i] == text[i];
    NothingInLetter();
    assert longer[m + 1..m + 2] == "b" && text[p..|text|] == text[p..];
    if q == m + 1 {
      assert false;
    } else if q == p {
      GrownLine(text, p, longer, m);
      FenceIsNotBlank(text[p..]);
    } else {
      assert longer[q..c] == text[q..c] && longer[..q] == text[..q];
    }
  }

  lemma FenceIsNotBlank(line: string)
    requires IsFenceLine(line)
    ensures line != ""
  {
  }

  /** The last line break of the challenged text is no place to cut: a fence is open there, or the
      backticks are odd, unless the text ends with a closing fence. */
  lemma ChallengedLineFails(text: string, p: nat, longer: string, m: nat)
    requires IsChallenged(text, p, longer, m) && !OpenFence(longer[..m]) && !Unbalanced(longer[..m])
    ensures LineCut(ClosedFence, text, p, |text|)
  {
    hide RStrip, RawLines, LineEnd, OpenFence, IsFenceLine, Tokens, Challenge, IsLineSentenceCut, IsListItem,
        FormingEnd, Strip;
    GrownLine(text, p, longer, m);
    CutInLine(longer, p, m);
    assert text[p..|text|] == text[p..];
    if !IsFenceLine(longer[p..m]) {
      OutsideOfPlainLine(longer, p, m);
      OutsideOfLetter(text, p, longer, m);
      assert exists u :: Outside(text + "b") == u + "b" by { LetterIsOutside(text, p, longer, m); }
      ChallengeIsOdd(text, longer, m);
    } else {
      FenceIsNotBlank(text[p..]);
    }
  }

  lemma LetterIsOutside(text: string, p: nat, longer: string, m: nat)
    requires IsChallenged(text, p, longer, m) && !OpenFence(text[..p]) && !IsFenceLine(longer[p..m])
    ensures exists u :: Outside(text + "b") == u + "b"
  {
    hide RStrip, OpenFence, IsFenceLine, Outside, LineEnd, Challenge;
    GrownLine(text, p, longer, m);
    var n := |text|;
    assert text + "b" == longer[..n + 1];
    assert longer[p..n + 1] <= longer[p..m];
    NoFenceAtLetter(text[p..], longer[p..n + 1]);
    OutsideOfPlainLine(longer, p, n + 1);
    assert longer[p..n + 1] == longer[p..n] + "b";
    assert Outside(text + "b") == (Outside(longer[..p]) + longer[p..n]) + "b";
  }

  lemma OutsideOfPlainLine(w: string, p: nat, c: nat)
    requires p < c <= |w| && LineStart(w, p) && c <= LineEnd(w, p) && !OpenFence(w[..p]) && !IsFenceLine(w[p..c])
    ensures Outside(w[..c]) == Outside(w[..p]) + w[p..c]
  {
    hide RawLines, IsFenceLine, LineEnd;
    var before, line := RawLines(w[..p]), w[p..c];
    RawLinesUpTo(w, p, c);
    CutInLine(w, p, c);
    KeepOutsideOfPrefix(before, [line], |before|);
    FenceCountOfPrefix(before, [line], |before|);
    assert KeptOf(before + [line], |before|) == line;
  }

  lemma OutsideOfLetter(text: string, p: nat, longer: string, m: nat)
    requires IsChallenged(text, p, longer, m) && !OpenFence(text[..p]) && !IsFenceLine(longer[p..m])
    ensures Outside(longer[..m]) == Outside(text + "b") + (if m == |text| + 1 then "" else "`")
  {
    hide RStrip, OpenFence, IsFenceLine, Outside, LineEnd, Challenge;
    GrownLine(text, p, longer, m);
    OutsideOfPlainLine(longer, p, m);
    var n, w := |text|, text + "b";
    assert w == longer[..n + 1];
    assert longer[p..n + 1] <= longer[p..m];
    NoFenceAtLetter(text[p..], longer[p..n + 1]);
    OutsideOfPlainLine(longer, p, n + 1);
    assert longer[p..m] == longer[p..n + 1] + (if m == n + 1 then "" else "`");
    assert Outside(longer[..p]) + (longer[p..n + 1] + "`") == Outside(longer[..p]) + longer[p..n + 1] + "`";
  }

  lemma ChallengeIsOdd(text: string, longer: string, m: nat)
    requires longer == text + Challenge(text) && m + 2 == |longer| && m <= |longer|
    requires Outside(longer[..m]) == Outside(text + "b") + (if m == |text| + 1 then "" else "`")
    requires exists u :: Outside(text + "b") == u + "b"
    ensures Backticks(Tokens(Outside(longer[..m]))) % 2 == 1
  {
    hide Outside, Tokens, Backticks;
    var out := Outside(text + "b");
    if m == |text| + 1 {
      assert out + "" == out;
    } else {
      var u :| out == u + "b";
      OneMoreBacktick(u);
      BacktickCounts(Tokens(out));
    }
  }

  /** Whatever the challenged text publishes is held by a settled boundary of the text. */
  lemma SurvivorIsSettled(text: string, p: nat, longer: string, m: nat, d: nat, kind: Kind)
    requires IsChallenged(text, p, longer, m) && Publishable(longer, d, kind)
    ensures exists c: nat, k ::
              SettledPasses(text, c, k)
              && (longer[..d] == text[..c] || RStrip(text[..c]) == RStrip(text))
  {
    hide OpenFence, RStrip, Passes, LineEnd, Challenge, LineCut, IsLongSpanCut, IsDecided;
    match kind {
      case Paragraph =>
        SurvivorKeeps(text, longer, d, kind);
      case Sentence =>
        var q: nat :| LineCut(Sentence, longer, q, d);
        SurvivingSentence(text, p, longer, m, q, d);
        SurvivorKeeps(text, longer, d, kind);
      case ListItem =>
        var q: nat :| LineCut(ListItem, longer, q, d);
        SurvivingListItem(text, p, longer, m, q, d);
        SurvivorKeeps(text, longer, d, kind);
      case ClosedFence =>
        var q: nat :| LineCut(ClosedFence, longer, q, d);
        SurvivingClosedFence(text, p, longer, m, q, d);
        if q == p {
          SurvivingLastLine(text, p, longer, m, kind);
        } else {
          SurvivorKeeps(text, longer, d, kind);
        }
      case LongSpan =>
        LongSpanOfChallenged(text, p, longer, m, d);
        SurvivingLastLine(text, p, longer, m, kind);
      case Full =>
        assert longer[..d] == longer;
        LetterDangles(text, p, longer, m);
        assert false by { PassingIsNotDangling(longer, Full); }
    }
  }

  lemma PassingIsNotDangling(candidate: string, kind: Kind)
    requires Passes(candidate, kind)
    ensures !Dangling(candidate, kind) && !OpenFence(candidate) && !Unbalanced(candidate)
  {
  }

  lemma SurvivorKeeps(text: string, longer: string, c: nat, kind: Kind)
    requires text <= longer && c <= |text| && Passes(RStrip(longer[..c]), kind) && IsSettled(text, c, kind)
    ensures SettledPasses(text, c, kind) && longer[..c] == text[..c]
  {
    hide RStrip, Passes, IsSettled;
    assert longer[..c] == text[..c];
  }

  lemma LongSpanOfChallenged(text: string, p: nat, longer: string, m: nat, d: nat)
    requires IsChallenged(text, p, longer, m) && IsLongSpanCut(longer, d)
    ensures d == m
  {
    hide RStrip, LineEnd, Challenge;
    assert !NoBreakFrom(longer, 0);
    assert longer[d] == '\n';
  }

  lemma LetterDangles(text: string, p: nat, longer: string, m: nat)
    requires IsChallenged(text, p, longer, m)
    ensures Dangling(longer, Full)
  {
    hide RStrip, LineEnd, Challenge, RawLines, Strip, EndsInsideInline;
    RawLinesUpTo(longer, m + 1, m + 2);
    assert longer[..m + 2] == longer && longer[m + 1..m + 2] == "b";
    assert Strip("b") == "b" by { WordIsStripped("b"); }
  }

  lemma WordIsStripped(w: string)
    requires w != "" && forall i | 0 <= i < |w| :: !IsSpace(w[i])
    ensures Strip(w) == w && RStrip(w) == w
  {
    assert RStrip(w) == w;
  }

  /** If the grown last line may be published at its end, the text ends with a closing fence that may be. */
  lemma SurvivingLastLine(text: string, p: nat, longer: string, m: nat, kind: Kind)
    requires IsChallenged(text, p, longer, m) && Passes(RStrip(longer[..m]), kind)
    ensures SettledPasses(text, |text|, ClosedFence) && text[..|text|] == text
  {
    hide OpenFence, IsFenceLine, RStrip, Unbalanced, Outside, LineEnd, Dangling, LineCut, Challenge, Passes;
    var n := |text|;
    assert text[..n] == text;
    LastOfGrownIsVisible(text, p, longer, m);
    PassingIsNotDangling(longer[..m], kind);
    ChallengedLineFails(text, p, longer, m);
    ClosingFenceLineGrows(text, text, p);
    ClosingFenceLineGrows(text, longer, p);
    ClosedFenceFailsOnlyInline(text, n);
    SameOutsideSameBalance(RStrip(text), longer[..m]);
  }

  lemma LastOfGrownIsVisible(text: string, p: nat, longer: string, m: nat)
    requires IsChallenged(text, p, longer, m)
    ensures RStrip(longer[..m]) == longer[..m]
  {
    hide RStrip, LineEnd, Challenge;
    RStripUnique(longer[..m], longer[..m]);
  }

  // ----- the exact condition

  /** A shown prefix is never retracted, whatever is appended to the text, if and only if a settled
      boundary of the text that passes the checks holds it. */
  lemma NeverRetractedExactlyIfSettled(text: string, c: nat, kind: Kind)
    requires Publishable(RStrip(text), c, kind)
    ensures var shown := RStrip(RStrip(text)[..c]);
            IsNeverRetracted(text, shown) <==> IsHeldBySettled(text, shown)
  {
    hide RStrip, Publishable, IsHeldBySettled;
    PublishableIsInside(RStrip(text));
    var shown := RStrip(RStrip(text)[..c]);
    if IsHeldBySettled(text, shown) {
      forall more, r | IsLongestPublishable(text + more, r)
        ensures r.Publish? && shown <= r.text
      {
        SettledHolds(text, more, c, kind, r);
      }
    }
    if IsNeverRetracted(text, shown) {
      UnsettledIsRetracted(text, c, kind);
    }
  }

  lemma UnsettledIsRetracted(text: string, c: nat, kind: Kind)
    requires Publishable(RStrip(text), c, kind) && c <= |RStrip(text)|
    requires IsNeverRetracted(text, RStrip(RStrip(text)[..c]))
    ensures IsHeldBySettled(text, RStrip(RStrip(text)[..c]))
  {
    hide RStrip, Publishable, Challenge, SettledPasses;
    var w := RStrip(text);
    var shown := RStrip(w[..c]);
    var p, longer, m := Challenged(text);
    assert longer == text + Challenge(text) && RStrip(longer) == longer;
    PublicationExists(longer);
    var r :| IsLongestPublishable(longer, r);
    PublishableIsInside(longer);
    var d: nat, k :| Publishable(longer, d, k) && r.text == RStrip(longer[..d]);
    SurvivorIsSettled(text, p, longer, m, d, k);
    SettledIsInside(text);
    var c': nat, k' :| SettledPasses(text, c', k') && (longer[..d] == text[..c'] || RStrip(text[..c']) == RStrip(text));
    assert w[..|w|] == w && RStrip(w) == w by { WhatIsAppended(text, ""); assert text + "" == text; }
    RStripMonotone(w, c, |w|);
  }

  lemma SettledIsInside(text: string)
    ensures forall c: nat, k | SettledPasses(text, c, k) :: c <= |text|
  {
  }
}

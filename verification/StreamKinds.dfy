/** The exact condition for each kind of boundary, and examples (src/kai/bot.py, lines 585 to 789). */
module StreamKinds {
  import opened Text
  import opened InlineMarkdown
  import opened StreamChecks
  import opened StreamCuts
  import opened StreamFilter
  import opened StreamStability
  import opened StreamRetraction

  // ----- the condition for each kind of boundary

  /** A published boundary that holds itself: every paragraph break and closing fence, a sentence that
      anything follows, if only white space, and a list item whose next line is decided. */
  predicate IsFirm(text: string, c: nat, kind: Kind) {
    || kind == Paragraph || kind == ClosedFence
    || (kind == Sentence && c < |text|) || (kind == ListItem && IsDecided(text, c + 1))
  }

  lemma SentenceBeforeSpace(w: string, text: string, p: nat)
    requires w <= text && |w| < |text| && IsSpace(text[|w|]) && LineCut(Sentence, w, p, |w|)
    ensures LineCut(Sentence, text, p, |w|)
  {
    hide OpenFence, IsFenceLine, IsLineSentenceCut, IsListItem, FormingEnd, Strip, LineEnd;
    LineEndGrows(w, text, p);
    var e' := LineEnd(text, p);
    assert text[..p] == w[..p] && LineStart(text, p) && w[p..] <= text[p..e'] && w[p..|w|] == w[p..];
    if e' > |w| {
      assert text[p..e'][|w| - p] == text[|w|];
      SentenceGrowsBySpace(w[p..], text[p..e']);
    } else {
      assert text[p..e'] == w[p..];
    }
  }

  lemma SentenceGrowsBySpace(line: string, longer: string)
    requires line <= longer && |line| < |longer| && IsSpace(longer[|line|]) && IsLineSentenceCut(line, |line|)
    ensures IsLineSentenceCut(longer, |line|) && IsFenceLine(longer) == IsFenceLine(line)
  {
    hide OrderedMarkerEnd, IsFenceLine;
    var k := |line|;
    var t :| OrderedMarkerEnd(line) <= t < k && IsSentenceEnd(line[t]) && forall i | t < i < k :: IsTail(line[i]);
    MarkerStays(line, longer, t);
    assert forall i | 0 <= i < |line| :: longer[i] == line[i];
    FencePrefix(line, longer);
  }

  lemma FormingGrowsBySpace(line: string, longer: string)
    requires line <= longer && IsFormingMarker(line) && forall i | |line| <= i < |longer| :: IsSpace(longer[i])
    ensures IsFormingMarker(longer)
  {
    SkipsGrow(line, longer, 0);
    SkipsAgree(line, longer, 0);
    var a := SkipSpaces(line, 0);
    SkipsAgree(line, longer, a);
    assert longer[a] == line[a];
    SkipsStopAtSpace(line, longer, a);
    assert forall i | 0 <= i < |line| :: longer[i] == line[i];
  }

  lemma SkipsStopAtSpace(line: string, longer: string, i: nat)
    requires line <= longer && i <= |line| && forall k | |line| <= k < |longer| :: IsSpace(longer[k])
    ensures SkipDigits(longer, i) == SkipDigits(line, i)
    decreases |line| - i
  {
    if i < |line| {
      assert longer[i] == line[i];
      SkipsStopAtSpace(line, longer, i + 1);
    }
  }

  /** The line after a list item is blank or begins a list item. */
  predicate ClosesItem(w: string, q: nat) {
    q < |w| && (Strip(w[q..LineEnd(w, q)]) == "" || IsFormingMarker(w[q..LineEnd(w, q)]))
  }

  /** The text is a stripped text and white space after it. */
  ghost predicate GrowsBySpace(w: string, text: string) {
    w <= text && RStrip(w) == w && forall i | |w| <= i < |text| :: IsSpace(text[i])
  }

  lemma ClosingLineBeforeSpace(w: string, text: string, q: nat)
    requires GrowsBySpace(w, text) && ClosesItem(w, q)
    ensures ClosesItem(text, q)
  {
    hide IsFormingMarker, Strip, RStrip, LineEnd;
    LineEndGrows(w, text, q);
    var e, e' := LineEnd(w, q), LineEnd(text, q);
    if e < |w| {
      assert text[q..e'] == w[q..e];
    } else {
      LastLineGrowsBySpace(w, text, q, e');
    }
  }

  lemma LastLineGrowsBySpace(w: string, text: string, q: nat, e: nat)
    requires GrowsBySpace(w, text) && q < |w| <= e <= |text|
    requires Strip(w[q..|w|]) == "" || IsFormingMarker(w[q..|w|])
    ensures IsFormingMarker(text[q..e])
  {
    hide IsFormingMarker, Strip, RStrip;
    var line, longer := w[q..|w|], text[q..e];
    assert line <= longer && line[|w| - 1 - q] == w[|w| - 1];
    assert !IsSpace(w[|w| - 1]) by { LastIsVisible(w); }
    StripBlank(line);
    FormingGrowsBySpace(line, longer);
  }

  lemma ListItemBeforeSpace(w: string, text: string, p: nat, c: nat)
    requires GrowsBySpace(w, text) && LineCut(ListItem, w, p, c)
    ensures LineCut(ListItem, text, p, c)
  {
    hide *;
    assert w <= text by { GrowsIsPrefix(w, text); }
    assert p < |w| && LineStart(w, p) && p <= c && c == LineEnd(w, p) && c + 1 < |w| && ClosesItem(w, c + 1)
           && IsListItem(w[p..c]) by {
      ItemIsClosed(w, p, c);
    }
    assert LineEnd(text, p) == c by { LineEndGrows(w, text, p); }
    assert LineStart(text, p) by { LineStartGrows(w, text, p); }
    assert ClosesItem(text, c + 1) by { ClosingLineBeforeSpace(w, text, c + 1); }
    assert text[p..c] == w[p..c];
    assert LineCut(ListItem, text, p, c) by { ItemFromParts(text, p, c); }
  }

  lemma GrowsIsPrefix(w: string, text: string)
    requires GrowsBySpace(w, text)
    ensures w <= text
  {
  }

  lemma ItemIsClosed(w: string, p: nat, c: nat)
    requires LineCut(ListItem, w, p, c)
    ensures p < |w| && LineStart(w, p) && p <= c && c == LineEnd(w, p) && IsListItem(w[p..c]) && ClosesItem(w, c + 1)
        && c + 1 < |w|
  {
    hide IsFormingMarker, Strip, LineEnd, IsListItem;
  }

  lemma LineStartGrows(w: string, text: string, p: nat)
    requires w <= text && p < |w| && LineStart(w, p)
    ensures LineStart(text, p)
  {
  }

  lemma ItemFromParts(w: string, p: nat, c: nat)
    requires p < |w| && LineStart(w, p) && p <= c && c == LineEnd(w, p) && IsListItem(w[p..c]) && ClosesItem(w, c + 1)
    ensures LineCut(ListItem, w, p, c)
  {
    hide IsFormingMarker, Strip, LineEnd, IsListItem;
  }

  lemma FirmIsSettled(text: string, c: nat, kind: Kind)
    requires Publishable(RStrip(text), c, kind) && c <= |RStrip(text)| && IsFirm(text, c, kind)
    ensures IsHeldBySettled(text, RStrip(RStrip(text)[..c]))
  {
    hide RStrip, Passes, LineCut, IsDecided;
    var w := RStrip(text);
    RStripDropsSpace(text);
    assert w <= text && RStrip(w) == w by { RStripUnique(w, w); }
    assert text[..c] == w[..c];
    if kind == Paragraph {
      assert text[c] == w[c] && text[c + 1] == w[c + 1];
      assert SettledPasses(text, c, kind);
    } else if kind == ClosedFence && c == |w| {
      assert w[..c] == w;
      ClosingFenceStays(w, text);
      var d: nat :| IsLineCut(ClosedFence, text, d) && |w| <= d <= |text| && Passes(RStrip(text[..d]), ClosedFence);
      RStripMonotone(text, c, d);
      assert SettledPasses(text, d, kind);
    } else {
      var p: nat :| LineCut(kind, w, p, c);
      if kind == ListItem {
        ListItemBeforeSpace(w, text, p, c);
      } else if c < |w| {
        FirmLineCutStays(kind, w, text, p, c);
      } else {
        SentenceBeforeSpace(w, text, p);
      }
      assert SettledPasses(text, c, kind);
    }
  }

  /** Firm publications are never retracted: whatever is appended to the text, the filter goes on
      publishing something that begins with them. */
  lemma FirmPublicationIsNeverRetracted(text: string, more: string, c: nat, kind: Kind, r: Publication)
    requires Publishable(RStrip(text), c, kind) && IsFirm(text, c, kind)
    requires IsLongestPublishable(text + more, r)
    ensures r.Publish? && RStrip(RStrip(text)[..c]) <= r.text
  {
    hide *;
    assert c <= |RStrip(text)| by { PublishableIsInside(RStrip(text)); }
    FirmIsSettled(text, c, kind);
    SettledHolds(text, more, c, kind, r);
  }

  /** A published sentence is never retracted if and only if anything follows it in the text. */
  lemma SentenceIsKeptExactlyIfTextFollows(text: string, c: nat)
    requires Publishable(RStrip(text), c, Sentence)
    ensures IsNeverRetracted(text, RStrip(RStrip(text)[..c])) <==> c < |text|
  {
    hide *;
    assert c <= |RStrip(text)| by { PublishableIsInside(RStrip(text)); }
    NeverRetractedExactlyIfSettled(text, c, Sentence);
    if c < |text| {
      assert IsFirm(text, c, Sentence) by { SentenceIsFirm(text, c); }
      FirmIsSettled(text, c, Sentence);
    } else {
      NothingFollows(text, c);
    }
  }

  lemma SentenceIsFirm(text: string, c: nat)
    requires c < |text|
    ensures IsFirm(text, c, Sentence)
  {
  }

  lemma NothingFollows(text: string, c: nat)
    requires Publishable(RStrip(text), c, Sentence) && |text| <= c <= |RStrip(text)|
    ensures !IsHeldBySettled(text, RStrip(RStrip(text)[..c]))
  {
    hide *;
    SentenceAtTheEndIsUnsettled(text);
  }

  lemma SentenceAtTheEndIsUnsettled(text: string)
    requires RStrip(text) == text && Publishable(text, |text|, Sentence)
    ensures !IsHeldBySettled(text, RStrip(text[..|text|]))
  {
    hide RStrip, Passes, OpenFence, IsFenceLine, IsLineSentenceCut, LineEnd, IsDecided;
    var n := |text|;
    assert text[..n] == text;
    var p: nat :| LineCut(Sentence, text, p, n);
    forall c: nat, k | SettledPasses(text, c, k)
      ensures !(text <= RStrip(text[..c]))
    {
      if c == n && k == ClosedFence {
        NoFenceLineHere(text, p);
      }
    }
  }

  /** A line that ends a sentence is no closing fence. */
  lemma NoFenceLineHere(text: string, p: nat)
    requires LineCut(Sentence, text, p, |text|)
    ensures !IsLineCut(ClosedFence, text, |text|)
  {
    hide OpenFence, IsFenceLine, IsLineSentenceCut, LineEnd;
    forall q: nat | LineStart(text, q) && q < |text| && LineEnd(text, q) == |text|
      ensures q == p
    {
      NoStartsInside(text, p);
      NoStartsInside(text, q);
    }
  }

  /** A published list item is never retracted if and only if its next line is decided, or it also ends
      a sentence. */
  lemma ListItemIsKeptExactlyIfDecided(text: string, c: nat)
    requires Publishable(RStrip(text), c, ListItem)
    ensures var shown := RStrip(RStrip(text)[..c]);
            IsNeverRetracted(text, shown)
            <==> IsDecided(text, c + 1)
                 || exists d: nat :: d < |text| && IsLineCut(Sentence, text, d) && RStrip(text[..d]) == shown
  {
    hide RStrip, Publishable, IsHeldBySettled, IsLongestPublishable, IsDecided, IsLineCut, IsNeverRetracted;
    var w := RStrip(text);
    PublishableIsInside(w);
    var shown := RStrip(w[..c]);
    NeverRetractedExactlyIfSettled(text, c, ListItem);
    if IsDecided(text, c + 1) {
      FirmIsSettled(text, c, ListItem);
    } else {
      UndecidedListItem(text, c);
    }
  }

  lemma UndecidedListItem(text: string, c: nat)
    requires Publishable(RStrip(text), c, ListItem) && c <= |RStrip(text)| && !IsDecided(text, c + 1)
    ensures var shown := RStrip(RStrip(text)[..c]);
            IsHeldBySettled(text, shown)
            <==> exists d: nat :: d < |text| && IsLineCut(Sentence, text, d) && RStrip(text[..d]) == shown
  {
    hide RStrip, Passes, LineCut, LineEnd, IsDecided;
    var w := RStrip(text);
    var shown := RStrip(w[..c]);
    var p := UndecidedMarker(text, c);
    assert text[..c] == w[..c];
    if d: nat :| d < |text| && IsLineCut(Sentence, text, d) && RStrip(text[..d]) == shown {
      WeakerKindsPassLess(shown, Sentence, ListItem);
      assert SettledPasses(text, d, Sentence);
    }
    if IsHeldBySettled(text, shown) {
      var d: nat, k :| SettledPasses(text, d, k) && d <= |text| && shown <= RStrip(text[..d]);
      HeldBySentence(text, p, c, d, k);
      assert shown == RStrip(text[..d]) by { RStripMonotone(text, d, c); }
    }
  }

  /** The text ends with the bare marker that stands after the item. */
  ghost predicate EndsWithMarker(text: string, p: nat, c: nat) {
    && c < |text| && LineCut(ListItem, text, p, c)
    && LineEnd(text, c + 1) == |text| && FormingEnd(text[c + 1..]) == |text| - c - 1 && text[c + 1..] != ""
  }

  lemma UndecidedMarker(text: string, c: nat) returns (p: nat)
    requires Publishable(RStrip(text), c, ListItem) && c <= |RStrip(text)| && !IsDecided(text, c + 1)
    ensures EndsWithMarker(text, p, c)
  {
    hide RStrip, Passes, LineEnd, FormingEnd, IsListItem, Strip;
    var w := RStrip(text);
    RStripDropsSpace(text);
    assert w <= text && RStrip(w) == w by { RStripUnique(w, w); }
    p :| LineCut(ListItem, w, p, c);
    ListItemBeforeSpace(w, text, p, c);
    UndecidedLine(text, c + 1, |w| - 1);
  }

  lemma UndecidedLine(text: string, q: nat, last: nat)
    requires ClosesItem(text, q) && !IsDecided(text, q) && q <= last < |text| && !IsSpace(text[last])
    ensures LineEnd(text, q) == |text| && FormingEnd(text[q..]) == |text| - q
  {
    hide LineEnd, FormingEnd, Strip;
    assert text[q..|text|] == text[q..];
    assert text[q..][last - q] == text[last];
    StripBlank(text[q..]);
  }

  lemma MarkerEndsVisibly(line: string)
    requires FormingEnd(line) == |line| > 0
    ensures !IsSpace(line[|line| - 1]) && !IsFenceLine(line) && forall k: nat :: !IsLineSentenceCut(line, k)
  {
    var a := SkipSpaces(line, 0);
    var b := SkipDigits(line, a);
    SkippedDigits(line, a);
    SkippedSpaces(line, 0);
    assert forall i | 0 <= i < |line| :: line[i] != '`';
    if b < |line| {
      assert forall i | 0 <= i < |line| - 1 :: !IsSentenceEnd(line[i]);
    } else {
      assert forall i | 0 <= i < |line| :: !IsSentenceEnd(line[i]);
    }
  }

  lemma SkippedDigits(line: string, i: nat)
    requires i <= |line|
    ensures forall k | i <= k < SkipDigits(line, i) :: IsDigit(line[k])
    decreases |line| - i
  {
  }

  lemma SkippedSpaces(line: string, i: nat)
    requires i <= |line|
    ensures forall k | i <= k < SkipSpaces(line, i) :: line[k] == ' '
    decreases |line| - i
  {
  }

  /** Before a bare marker only a sentence of the item itself can hold it. */
  lemma HeldBySentence(text: string, p: nat, c: nat, d: nat, kind: Kind)
    requires EndsWithMarker(text, p, c) && IsSettled(text, d, kind) && d <= |text| && !IsDecided(text, c + 1)
    requires RStrip(text[..c]) <= RStrip(text[..d])
    ensures kind == Sentence && d <= c
  {
    hide RStrip, IsListItem, Strip, LineEnd, IsDecided, LineCut, FormingEnd, MarkerEnd, IsLineSentenceCut, IsFenceLine;
    ShownIsInItem(text, p, c, d);
    if kind == Paragraph {
      NoBlankLineAfterItem(text, p, c, d);
    } else {
      var q: nat :| LineCut(kind, text, q, d);
      CutOfItem(text, p, c, q, d, kind);
    }
  }

  lemma NoBlankLineAfterItem(text: string, p: nat, c: nat, d: nat)
    requires EndsWithMarker(text, p, c) && p < d
    ensures !BlankLineAt(text, d)
  {
    hide LineEnd, FormingEnd, IsListItem, Strip, IsDecided;
    NoBreakBefore(text, p);
    NoBreakBefore(text, c + 1);
  }

  lemma CutOfItem(text: string, p: nat, c: nat, q: nat, d: nat, kind: Kind)
    requires EndsWithMarker(text, p, c) && LineCut(kind, text, q, d) && p < d && !IsDecided(text, c + 1)
    requires kind == ListItem ==> IsDecided(text, d + 1)
    ensures kind == Sentence && d <= c
  {
    hide LineEnd, FormingEnd, IsListItem, Strip, IsDecided, OpenFence, IsFenceLine, IsLineSentenceCut;
    var line := text[c + 1..];
    assert text[c + 1..|text|] == line;
    MarkerEndsVisibly(line);
    ItemIsNoFence(text[p..c]);
    LinesOfItem(text, p, c, q, d);
  }

  lemma LinesOfItem(text: string, p: nat, c: nat, q: nat, d: nat)
    requires c < |text| && LineStart(text, p) && p < |text| && LineEnd(text, p) == c && LineEnd(text, c + 1) == |text|
    requires q < |text| && LineStart(text, q) && q <= d <= LineEnd(text, q) && p < d
    ensures q == p || q == c + 1
  {
    hide LineEnd;
    NoStartsInside(text, p);
    NoStartsInside(text, c + 1);
    NoStartsInside(text, q);
  }

  lemma ItemIsNoFence(line: string)
    requires IsListItem(line)
    ensures !IsFenceLine(line)
  {
    hide MarkerEnd, Strip, IsFenceLine;
    var a := MarkerAfterSpaces(line);
    NoFenceAt(line, a);
  }

  lemma MarkerAfterSpaces(line: string) returns (a: nat)
    requires MarkerEnd(line) > 0
    ensures a < |line| && line[a] != ' ' && line[a] != '`' && forall i | 0 <= i < a :: line[i] == ' '
  {
    hide SkipDigits, SkipSpaces;
    a := SkipSpaces(line, 0);
    SkippedSpaces(line, 0);
    SkippedDigits(line, a);
  }

  lemma NoFenceAt(line: string, a: nat)
    requires a < |line| && line[a] != ' ' && line[a] != '`' && forall i | 0 <= i < a :: line[i] == ' '
    ensures !IsFenceLine(line)
  {
  }

  /** The prefix up to the item is longer than everything before the item. */
  lemma ShownIsInItem(text: string, p: nat, c: nat, d: nat)
    requires EndsWithMarker(text, p, c) && d <= |text| && RStrip(text[..c]) <= RStrip(text[..d])
    ensures p < d
  {
    hide RStrip, OpenFence, IsFenceLine, LineEnd, FormingEnd, IsLineSentenceCut;
    var i :| 0 <= i < c - p && !IsSpace(text[p..c][i]);
    RStripDropsSpace(text[..c]);
    assert text[..c][p + i] == text[p..c][i];
    assert |RStrip(text[..c])| > p + i;
  }

  // ----- examples

  /** A short word has no cuts but its sentence ends and its own end. */
  lemma ShortWord(w: string)
    requires 0 < |w| < LONG_SPAN_MIN_CHARS && forall i | 0 <= i < |w| :: !IsSpace(w[i])
    ensures forall c: nat, kind | IsCandidate(w, c, kind) :: c == |w| && (kind == Full || IsLineSentenceCut(w, c))
  {
    hide IsLineSentenceCut, OpenFence, IsFenceLine, IsListItem, FormingEnd, Strip, RStrip, LineEnd;
    assert w[0..|w|] == w;
    forall c: nat, kind | IsCandidate(w, c, kind)
      ensures c == |w| && (kind == Full || IsLineSentenceCut(w, c))
    {
      if kind == Sentence || kind == ClosedFence || kind == ListItem {
        var p: nat :| LineCut(kind, w, p, c);
        assert p == 0;
        NothingIsOpen(w);
        assert kind == Sentence;
        SentenceIsBeforeSpace(w, c);
      }
    }
  }

  lemma SentenceIsBeforeSpace(line: string, k: nat)
    requires IsLineSentenceCut(line, k)
    ensures k == |line| || (k < |line| && IsSpace(line[k]))
  {
  }

  /** A line with neither white space nor fence, on its own. */
  lemma WordLine(w: string)
    requires w != "" && (forall i | 0 <= i < |w| :: !IsSpace(w[i])) && !IsFenceLine(w)
    ensures RStrip(w) == w && Strip(w) == w && !OpenFence(w) && Outside(w) == w
    ensures RawLines(w) == [w] && Chomp(w) == w
  {
    hide IsFenceLine, RawLines, Strip, RStrip, KeptOf, FenceCount;
    assert RawLines(w) == [w] by { RawLinesOne(w); }
    assert Chomp(w) == w;
    WordIsStripped(w);
    OneRawLine(w);
  }

  lemma OneRawLine(w: string)
    requires !IsFenceLine(w) && Chomp(w) == w
    ensures FenceCount([w], 1) == 0 && KeepOutside([w], 1) == w
  {
    hide IsFenceLine, Chomp;
    assert FenceCount([w], 0) == 0 && KeepOutside([w], 0) == "";
  }

  /** Two characters that are no marks. */
  lemma ShortTokens(c: char)
    requires c == 'a' || c == '1'
    ensures Tokens([c, '.']) == [Plain(c), Plain('.')]
    ensures Backticks([Plain(c), Plain('.')]) == 0 && MaxExcess([Plain(c), Plain('.')]) == 0
    ensures !EndsOpen(Label(0, false), [Plain(c), Plain('.')])
  {
    hide EndsOpen, Backticks, MaxExcess;
    var w := [c, '.'];
    TokensStep(w, 0);
    TokensStep(w, 1);
    assert w[1..] == "." && w[2..] == "";
    NoMarks(c);
  }

  lemma NoMarks(c: char)
    requires c == 'a' || c == '1'
    ensures Backticks([Plain(c), Plain('.')]) == 0 && MaxExcess([Plain(c), Plain('.')]) == 0
    ensures !EndsOpen(Label(0, false), [Plain(c), Plain('.')])
  {
    var toks := [Plain(c), Plain('.')];
    assert toks[1..] == [Plain('.')] && [Plain('.')][1..] == [];
    RunOne(Label(0, false), Plain('.'));
    assert Run(Label(0, false), toks) == Run(Label(0, false), [Plain('.')]);
  }

  lemma ShortSentencePasses(c: char)
    requires c == 'a' || c == '1'
    ensures Passes([c, '.'], Full) && RStrip([c, '.']) == [c, '.']
  {
    hide RawLines, RStrip, Outside, OpenFence, Strip, Tokens, Backticks, EndsOpen, MaxExcess, Excess;
    var w := [c, '.'];
    ShortTokens(c);
    WordLine(w);
    MaxExcessIsMaximum(Tokens(w));
    assert IsSentenceEnd(w[1]);
  }

  lemma ShortTokenFails(c: char)
    requires c == 'a' || c == '1'
    ensures !Passes([c, '.', 'b'], Full) && !IsLineSentenceCut([c, '.', 'b'], 3)
        && RStrip([c, '.', 'b']) == [c, '.', 'b']
  {
    hide EndsInsideInline, RawLines, RStrip, Outside, OpenFence, Strip, Unbalanced, OrderedMarkerEnd;
    var w := [c, '.', 'b'];
    WordLine(w);
    assert !IsTail(w[2]) && !IsSentenceEnd(w[2]);
  }

  /** A sentence at the very end of the text is shown, and one more letter takes it back. So is a bare
      list marker, although only complete sentences are meant to be shown there. */
  lemma SentenceAtTheEndIsRetracted(c: char)
    requires c == 'a' || c == '1'
    ensures IsLongestPublishable([c, '.'], Publish([c, '.']))
    ensures IsLongestPublishable([c, '.'] + "b", Withheld)
  {
    hide RStrip, Passes, IsCandidate, IsLineSentenceCut;
    var w, longer := [c, '.'], [c, '.', 'b'];
    ShortWord(w);
    ShortWord(longer);
    assert w[..2] == w && longer[..3] == longer && w + "b" == longer;
    ShortSentencePasses(c);
    ShortTokenFails(c);
    WeakerKindsPassLess(longer, Sentence, Full);
    assert IsCandidate(w, 2, Full) by { FullIsCandidate(w); }
    assert Publishable(w, 2, Full);
  }

  lemma FullIsCandidate(w: string)
    ensures IsCandidate(w, |w|, Full)
  {
  }

  /** The marker is no sentence: it is shown as the end of the text. */
  lemma BareMarkerIsNoSentence(k: nat)
    ensures !IsLineSentenceCut("1.", k)
  {
    var b := SkipDigits("1.", 0);
    assert SkipDigits("1.", 1) == 1 && b == 1;
  }

  /** A paragraph break after a sentence is shown as long as anything follows it, whatever follows. */
  lemma ParagraphIsKept(more: string, r: Publication)
    requires IsLongestPublishable("a.\n\nb" + more, r)
    ensures r.Publish? && "a." <= r.text
  {
    hide RStrip, Passes, Publishable, IsLongestPublishable;
    var w := "a.\n\nb";
    RStripUnique(w, w);
    ParagraphIsPublishable();
    FirmPublicationIsNeverRetracted(w, more, 2, Paragraph, r);
  }

  lemma ParagraphIsPublishable()
    ensures Publishable("a.\n\nb", 2, Paragraph) && RStrip("a.\n\nb"[..2]) == "a."
  {
    hide RStrip, Passes;
    var w := "a.\n\nb";
    assert w[..2] == ['a', '.'];
    assert !IsSpace(w[4]);
    ShortSentencePasses('a');
    WeakerKindsPassLess(['a', '.'], Paragraph, Full);
  }
}

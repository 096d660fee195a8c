/** What the cuts and the checks of the stream filter have to do with each other, and what becomes of
    them when the text grows (src/kai/bot.py, lines 585 to 703). */
module StreamStability {
  import opened Text
  import opened StreamChecks
  import opened StreamCuts
  import opened StreamFilter

  // ----- the fence trackers of the generators agree with the parity check

  lemma CutInLine(w: string, p: nat, c: nat)
    requires p < c <= |w| && LineStart(w, p) && c <= LineEnd(w, p)
    ensures Chomp(w[p..c]) == w[p..c]
    ensures OpenFence(w[..c]) == (OpenFence(w[..p]) != IsFenceLine(w[p..c]))
  {
    hide OpenFence, IsFenceLine;
    assert Chomp(w[p..c]) == w[p..c] by {
      NoBreakBefore(w, p);
    }
    FenceTracker(w, p, c);
  }

  lemma SentenceEndsVisibly(line: string, k: nat)
    requires IsLineSentenceCut(line, k)
    ensures 0 < k <= |line| && !IsSpace(line[k - 1])
    ensures exists t :: 0 <= t < k && IsSentenceEnd(line[t])
  {
    hide OrderedMarkerEnd;
  }

  /** A sentence is never rejected for an open fence. */
  lemma SentenceLeavesNoFenceOpen(w: string, c: nat)
    requires IsLineCut(Sentence, w, c)
    ensures c <= |w| && RStrip(w[..c]) == w[..c] && !OpenFence(w[..c])
  {
    hide OpenFence, IsLineSentenceCut, RStrip, IsFenceLine;
    var p: nat :| LineCut(Sentence, w, p, c);
    var line := w[p..LineEnd(w, p)];
    SentenceEndsVisibly(line, c - p);
    assert w[c - 1] == line[c - p - 1];
    RStripUnique(w[..c], w[..c]);
    CutInLine(w, p, c);
    FencePrefix(w[p..c], line);
  }

  /** The last fence line of a prefix that ends at a closing fence. */
  lemma StrippedFence(w: string, p: nat)
    requires p < |w| && LineStart(w, p) && IsFenceLine(w[p..LineEnd(w, p)])
    ensures var s := RStrip(w[..LineEnd(w, p)]);
            p < |s| && s == w[..|s|] && IsFenceLine(w[p..|s|])
  {
    var e := LineEnd(w, p);
    var line, s := w[p..e], RStrip(w[..e]);
    RStripDropsSpace(w[..e]);
    var k := TicksOf(line);
    assert w[..e][p + k + 2] == line[k + 2];
    assert |s| >= p + k + 3;
    hide IsFenceLine;
    assert line[..k + 3] <= w[p..|s|];
    FencePrefix(line[..k + 3], w[p..|s|]);
  }

  lemma TicksOf(line: string) returns (k: nat)
    requires IsFenceLine(line)
    ensures k + 3 <= |line| && line[k + 2] == '`' && IsFenceLine(line[..k + 3])
  {
    if k' :| 0 <= k' <= 3 && TicksAt(line, k') && IsFenceLine(line[..k' + 3]) {
      k := k';
    }
  }

  /** A closing fence is never rejected for an open fence, nor for its last line: only the inline
      Markdown before it can hold it back. */
  lemma ClosedFenceFailsOnlyInline(w: string, c: nat)
    requires IsLineCut(ClosedFence, w, c)
    ensures c <= |w| && !OpenFence(RStrip(w[..c])) && !Dangling(RStrip(w[..c]), ClosedFence)
    ensures Passes(RStrip(w[..c]), ClosedFence) <==> !Unbalanced(RStrip(w[..c]))
  {
    hide OpenFence, RStrip, IsFenceLine, Unbalanced, RawLines, EndsInsideInline;
    var p: nat :| LineCut(ClosedFence, w, p, c);
    StrippedFence(w, p);
    var s := RStrip(w[..c]);
    CutInLine(w, p, |s|);
    RawLinesUpTo(w, p, |s|);
    assert RStrip(s) == s by {
      RStripUnique(s, s);
    }
  }

  // ----- lines that grow

  lemma SkipsAgree(line: string, longer: string, i: nat)
    requires line <= longer && i <= |line|
    ensures SkipSpaces(line, i) < |line| ==> SkipSpaces(longer, i) == SkipSpaces(line, i)
    ensures SkipDigits(line, i) < |line| ==> SkipDigits(longer, i) == SkipDigits(line, i)
    decreases |line| - i
  {
    if i < |line| {
      assert longer[i] == line[i];
      SkipsAgree(line, longer, i + 1);
    }
  }

  lemma SkipsPassNoSentenceEnd(line: string, i: nat, t: nat)
    requires i <= t < |line| && IsSentenceEnd(line[t])
    ensures SkipSpaces(line, i) <= t && SkipDigits(line, i) <= t
    decreases t - i
  {
    if i < t {
      SkipsPassNoSentenceEnd(line, i + 1, t);
    }
  }

  /** Where a line goes on after a sentence, more text leaves its list marker as it is. */
  lemma MarkerStays(line: string, longer: string, t: nat)
    requires line <= longer && OrderedMarkerEnd(line) <= t < |line| && IsSentenceEnd(line[t])
    ensures OrderedMarkerEnd(longer) == OrderedMarkerEnd(line)
  {
    SkipsPassNoSentenceEnd(line, 0, t);
    SkipsAgree(line, longer, 0);
    var a := SkipSpaces(line, 0);
    SkipsPassNoSentenceEnd(line, a, t);
    SkipsAgree(line, longer, a);
    var b := SkipDigits(line, a);
    assert longer[b] == line[b];
    if b + 1 < |line| {
      assert longer[b + 1] == line[b + 1];
    }
  }

  lemma SentenceStays(line: string, longer: string, k: nat)
    requires line <= longer && k < |line| && IsLineSentenceCut(line, k)
    ensures IsLineSentenceCut(longer, k) && IsFenceLine(longer) == IsFenceLine(line)
  {
    hide OrderedMarkerEnd, IsFenceLine;
    var t :| OrderedMarkerEnd(line) <= t < k && IsSentenceEnd(line[t]) && forall i | t < i < k :: IsTail(line[i]);
    MarkerStays(line, longer, t);
    assert forall i | 0 <= i < |line| :: longer[i] == line[i];
    FencePrefix(line, longer);
  }

  lemma LineEndGrows(w: string, longer: string, p: nat)
    requires w <= longer && p <= |w|
    ensures LineEnd(w, p) <= LineEnd(longer, p)
    ensures LineEnd(w, p) < |w| ==> LineEnd(longer, p) == LineEnd(w, p)
  {
    NoBreakBefore(w, p);
    NoBreakBefore(longer, p);
    var e, e' := LineEnd(w, p), LineEnd(longer, p);
    assert forall i | 0 <= i < |w| :: longer[i] == w[i];
    if e < |w| {
      LineEndUnique(longer, p, e);
    }
  }

  lemma FirmLineCutStays(kind: Kind, w: string, longer: string, p: nat, c: nat)
    requires w <= longer && (kind == Sentence || kind == ClosedFence) && c < |w| && LineCut(kind, w, p, c)
    ensures LineCut(kind, longer, p, c)
  {
    hide OpenFence, IsFenceLine, IsLineSentenceCut, IsListItem, IsFormingMarker, Strip, LineEnd;
    LineEndGrows(w, longer, p);
    var e, e' := LineEnd(w, p), LineEnd(longer, p);
    assert longer[..p] == w[..p];
    assert LineStart(longer, p);
    if e < |w| {
      assert longer[p..e'] == w[p..e];
    } else if kind == Sentence {
      assert w[p..e] <= longer[p..e'];
      SentenceStays(w[p..e], longer[p..e'], c - p);
    }
  }

  /** A fence line adds nothing to what the inline check reads. */
  lemma FenceAddsNothing(w: string, p: nat, c: nat)
    requires p < c <= |w| && LineStart(w, p) && c <= LineEnd(w, p) && IsFenceLine(w[p..c])
    ensures Outside(w[..c]) == Outside(w[..p])
  {
    hide RawLines, IsFenceLine, LineEnd;
    var before, line := RawLines(w[..p]), w[p..c];
    RawLinesUpTo(w, p, c);
    CutInLine(w, p, c);
    KeepOutsideOfPrefix(before, [line], |before|);
    assert KeptOf(before + [line], |before|) == "";
  }

  lemma ClosingFenceLineGrows(w: string, longer: string, p: nat)
    requires w <= longer && LineCut(ClosedFence, w, p, |w|)
    ensures p <= |longer| && |w| <= LineEnd(longer, p) && LineCut(ClosedFence, longer, p, LineEnd(longer, p))
    ensures Outside(RStrip(longer[..LineEnd(longer, p)])) == Outside(w)
  {
    hide OpenFence, IsFenceLine, RStrip, Outside, LineEnd, IsLineSentenceCut, IsListItem, IsFormingMarker, Strip;
    var n := |w|;
    LineEndGrows(w, longer, p);
    var c' := LineEnd(longer, p);
    assert w[..n] == w && longer[..p] == w[..p] && LineStart(longer, p) && w[p..n] <= longer[p..c'];
    FencePrefix(w[p..n], longer[p..c']);
    StrippedFence(longer, p);
    FenceAddsNothing(longer, p, |RStrip(longer[..c'])|);
    FenceAddsNothing(w, p, n);
  }

  lemma SameOutsideSameBalance(a: string, b: string)
    requires Outside(a) == Outside(b)
    ensures Unbalanced(a) == Unbalanced(b)
  {
  }
}

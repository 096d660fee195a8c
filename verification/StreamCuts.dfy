/** The five generators of cut positions (src/kai/bot.py, lines 585 to 738). */
module StreamCuts {
  import opened Text
  import opened StreamChecks

  const LONG_SPAN_MIN_CHARS: nat := 240

  // ----- paragraphs

  predicate BlankLineAt(w: string, c: nat) {
    c + 2 <= |w| && w[c] == w[c + 1] == '\n'
  }

  /** A blank-line separator with something visible after it. */
  ghost predicate IsParagraphCut(w: string, c: nat) {
    BlankLineAt(w, c) && exists i :: c + 2 <= i < |w| && !IsSpace(w[i])
  }

  /** `w.find("\n\n", i)`, with |w| for "not found". */
  function FindBlankLine(w: string, i: nat): (j: nat)
    requires i <= |w|
    ensures i <= j <= |w| && (j < |w| ==> BlankLineAt(w, j))
    ensures forall k: nat | i <= k < j :: !BlankLineAt(w, k)
    decreases |w| - i
  {
    if i + 2 > |w| then |w|
    else if BlankLineAt(w, i) then i
    else FindBlankLine(w, i + 1)
  }

  lemma VisibleAfter(w: string, p: nat)
    requires p <= |w|
    ensures Strip(w[p..]) != "" <==> exists i :: p <= i < |w| && !IsSpace(w[i])
  {
    hide Strip, IsSpace;
    var rest := w[p..];
    StripBlank(rest);
    assert forall i | p <= i < |w| :: w[i] == rest[i - p];
    assert forall i | 0 <= i < |rest| :: rest[i] == w[p + i];
  }

  /** The only candidate that a jump of `find` meets is the one it stops at. */
  lemma ParagraphCutsBetween(w: string, i: nat)
    requires i <= |w|
    ensures forall c: nat | i <= c < FindBlankLine(w, i) :: !IsParagraphCut(w, c)
    ensures FindBlankLine(w, i) == |w| ==> forall c: nat | i <= c :: !IsParagraphCut(w, c)
    ensures var j := FindBlankLine(w, i);
            j < |w| ==> (IsParagraphCut(w, j) <==> Strip(w[j + 2..]) != "")
  {
    hide Strip, IsSpace, FindBlankLine;
    var j := FindBlankLine(w, i);
    if j < |w| {
      VisibleAfter(w, j + 2);
    }
  }

  method ParagraphCuts(working: string) returns (cuts: seq<nat>)
    ensures forall c: nat :: c in cuts <==> IsParagraphCut(working, c)
  {
    hide IsParagraphCut, Strip;
    cuts := [];
    var i, n := 0, |working|;
    while true
      invariant 0 <= i <= n
      invariant forall c: nat :: c in cuts <==> c < i && IsParagraphCut(working, c)
      decreases n - i
    {
      var j := FindBlankLine(working, i);
      ParagraphCutsBetween(working, i);
      if j == n {
        return;
      }
      if Strip(working[j + 2..]) != "" {
        cuts := cuts + [j];
      }
      i := j + 1;
    }
  }

  // ----- sentences

  function SkipSpaces(line: string, i: nat): (j: nat)
    requires i <= |line|
    ensures i <= j <= |line|
    decreases |line| - i
  {
    if i < |line| && line[i] == ' ' then SkipSpaces(line, i + 1) else i
  }

  function SkipDigits(line: string, i: nat): (j: nat)
    requires i <= |line|
    ensures i <= j <= |line|
    decreases |line| - i
  {
    if i < |line| && IsDigit(line[i]) then SkipDigits(line, i + 1) else i
  }

  /** Where the match of `^[ ]*\d+\.(\s|$)` ends, or 0 without a match. */
  function OrderedMarkerEnd(line: string): (end: nat)
    ensures end <= |line|
  {
    var a := SkipSpaces(line, 0);
    var b := SkipDigits(line, a);
    if b == a || b == |line| || line[b] != '.' then 0
    else if b + 1 == |line| then b + 1
    else if IsSpace(line[b + 1]) then b + 2
    else 0
  }

  predicate IsTail(c: char) {
    IsCloser(c) || IsSentenceEnd(c)
  }

  /** A terminator at or after `start`, with nothing but closers and terminators between it and k. */
  ghost predicate SentenceRun(line: string, start: nat, k: nat) {
    k <= |line| && exists t :: start <= t < k && IsSentenceEnd(line[t]) && forall i | t < i < k :: IsTail(line[i])
  }

  /** Position k of a line ends a sentence: such a run, begun after any list marker, reaches
      white space or the end of the line there. */
  ghost predicate IsLineSentenceCut(line: string, k: nat) {
    SentenceRun(line, OrderedMarkerEnd(line), k) && (k == |line| || IsSpace(line[k]))
  }

  lemma SentenceRunStep(line: string, start: nat, j: nat)
    requires start <= j < |line| && !IsSentenceEnd(line[j])
    requires SentenceRun(line, start, j) ==> !IsTail(line[j])
    ensures !SentenceRun(line, start, j + 1)
  {
    if t :| start <= t < j + 1 && IsSentenceEnd(line[t]) && (forall i | t < i < j + 1 :: IsTail(line[i])) {
      assert SentenceRun(line, start, j);
    }
  }

  /** The inner loop of `_sentence_cuts`. */
  method LineSentenceCuts(line: string) returns (ks: seq<nat>)
    ensures forall k: nat :: k in ks <==> IsLineSentenceCut(line, k)
  {
    ks := [];
    var n := |line|;
    var start := OrderedMarkerEnd(line);
    var j := start;
    while j < n
      invariant start <= j <= n
      invariant j < n && SentenceRun(line, start, j) ==> !IsTail(line[j])
      invariant forall k: nat :: k in ks <==> k <= j && IsLineSentenceCut(line, k)
    {
      if IsSentenceEnd(line[j]) {
        var k := j + 1;
        while k < n && IsTail(line[k])
          invariant j < k <= n
          invariant forall i | j < i < k :: IsTail(line[i])
        {
          k := k + 1;
        }
        assert SentenceRun(line, start, k);
        assert forall m | j < m < k :: IsTail(line[m]) && !IsSpace(line[m]);
        if k == n || IsSpace(line[k]) {
          ks := ks + [k];
        }
        j := k;
      } else {
        SentenceRunStep(line, start, j);
        j := j + 1;
      }
    }
  }

  // ----- list items

  /** Where the list marker of `[ ]*([-*+]|\d+\.)` ends, or 0 without one. */
  function MarkerEnd(line: string): (end: nat)
    ensures end <= |line|
  {
    var a := SkipSpaces(line, 0);
    var b := SkipDigits(line, a);
    if a < |line| && line[a] in "-*+" then a + 1
    else if b > a && b < |line| && line[b] == '.' then b + 1
    else 0
  }

  /** `^[ ]*([-*+]|\d+\.)\s+\S`: a list item with content. */
  predicate IsListItem(line: string) {
    var m := MarkerEnd(line);
    m > 0 && m < |line| && IsSpace(line[m]) && Strip(line[m..]) != ""
  }

  /** Where the marker of `[ ]*(\d+\.?|[-*+])` ends, or 0 without one. */
  function FormingEnd(line: string): (end: nat)
    ensures end <= |line|
  {
    var a := SkipSpaces(line, 0);
    var b := SkipDigits(line, a);
    if b > a then (if b < |line| && line[b] == '.' then b + 1 else b)
    else if a < |line| && line[a] in "-*+" then a + 1 else 0
  }

  /** `^[ ]*(\d+\.?|[-*+])(\s|$)`: a list item, or a marker that is still being emitted. */
  predicate IsFormingMarker(line: string) {
    var m := FormingEnd(line);
    m > 0 && (m == |line| || IsSpace(line[m]))
  }

  // ----- cuts that belong to one line

  /** Cut c belongs, as a cut of that kind, to the line that begins at p. A sentence ends outside
      fences; a closing fence is a fence line with an open fence before it; a list item is
      complete once the next line is blank or begins a list item. */
  ghost predicate LineCut(kind: Kind, w: string, p: nat, c: nat) {
    && p < |w| && LineStart(w, p) && p <= c <= LineEnd(w, p)
    && var e := LineEnd(w, p);
       var line := w[p..e];
       match kind
       case Sentence => !OpenFence(w[..p]) && !IsFenceLine(line) && IsLineSentenceCut(line, c - p)
       case ClosedFence => c == e && OpenFence(w[..p]) && IsFenceLine(line)
       case ListItem =>
         c == e && IsListItem(line) && e + 1 < |w|
         && (Strip(w[e + 1..LineEnd(w, e + 1)]) == "" || IsFormingMarker(w[e + 1..LineEnd(w, e + 1)]))
       case _ => false
  }

  ghost predicate IsLineCut(kind: Kind, w: string, c: nat) {
    exists p: nat :: LineCut(kind, w, p, c)
  }

  /** What a loop adds for the line that begins at p. */
  ghost predicate AddsCutsOf(kind: Kind, w: string, p: nat, before: seq<nat>, after: seq<nat>) {
    forall c: nat :: c in after <==> c in before || LineCut(kind, w, p, c)
  }

  /** The cuts of the lines that begin before p. */
  ghost predicate HoldsCutsBefore(kind: Kind, w: string, p: nat, cuts: seq<nat>) {
    forall c: nat :: c in cuts <==> exists q: nat :: q < p && LineCut(kind, w, q, c)
  }

  lemma NoCutsYet(kind: Kind, w: string)
    ensures HoldsCutsBefore(kind, w, 0, [])
  {
  }

  lemma NoCutInside(kind: Kind, w: string, p: nat, q: nat, c: nat)
    requires p < |w| && q <= LineEnd(w, p) && LineCut(kind, w, q, c)
    ensures q <= p
  {
    hide OpenFence, IsFenceLine, IsLineSentenceCut, IsListItem, IsFormingMarker, Strip;
    NoStartsInside(w, p);
  }

  lemma NextLine(kind: Kind, w: string, p: nat, before: seq<nat>, after: seq<nat>)
    requires p < |w| && HoldsCutsBefore(kind, w, p, before) && AddsCutsOf(kind, w, p, before, after)
    ensures HoldsCutsBefore(kind, w, LineEnd(w, p) + 1, after)
  {
    hide LineCut, LineEnd;
    forall q: nat, c: nat | q <= LineEnd(w, p) && LineCut(kind, w, q, c)
      ensures q <= p
    {
      NoCutInside(kind, w, p, q, c);
    }
  }

  lemma NoLineLeft(kind: Kind, w: string, cuts: seq<nat>)
    requires HoldsCutsBefore(kind, w, |w|, cuts) || HoldsCutsBefore(kind, w, |w| + 1, cuts)
    ensures forall c: nat :: c in cuts <==> IsLineCut(kind, w, c)
  {
  }

  function Shift(ks: seq<nat>, pos: nat): seq<nat> {
    seq(|ks|, i requires 0 <= i < |ks| => pos + ks[i])
  }

  lemma Shifted(ks: seq<nat>, pos: nat)
    ensures forall c: nat :: c in Shift(ks, pos) <==> c >= pos && c - pos in ks
  {
    forall c: nat | c >= pos && c - pos in ks
      ensures c in Shift(ks, pos)
    {
      var i :| 0 <= i < |ks| && ks[i] == c - pos;
      assert Shift(ks, pos)[i] == c;
    }
  }

  lemma SentencesOfLine(w: string, p: nat, before: seq<nat>, ks: seq<nat>)
    requires p < |w| && LineStart(w, p) && !OpenFence(w[..p]) && !IsFenceLine(w[p..LineEnd(w, p)])
    requires forall k: nat :: k in ks <==> IsLineSentenceCut(w[p..LineEnd(w, p)], k)
    ensures AddsCutsOf(Sentence, w, p, before, before + Shift(ks, p))
  {
    var after := before + Shift(ks, p);
    Shifted(ks, p);
    forall c: nat
      ensures c in after <==> c in before || LineCut(Sentence, w, p, c)
    {
      if c >= p {
        assert c - p in ks <==> IsLineSentenceCut(w[p..LineEnd(w, p)], c - p);
      }
    }
  }

  lemma NoSentenceInFence(w: string, p: nat, cuts: seq<nat>)
    requires p < |w| && (OpenFence(w[..p]) || IsFenceLine(w[p..LineEnd(w, p)]))
    ensures AddsCutsOf(Sentence, w, p, cuts, cuts)
  {
  }

  /** The fence state of the loop is the one that the parity check would compute. */
  method SentenceCuts(working: string) returns (cuts: seq<nat>)
    ensures forall c: nat :: c in cuts <==> IsLineCut(Sentence, working, c)
  {
    hide OpenFence, IsFenceLine, LineCut, LineEnd, IsLineCut, IsLineSentenceCut;
    cuts := [];
    var inFence := false;
    var pos, n := 0, |working|;
    NothingIsOpen(working);
    while pos < n
      invariant pos < n ==> LineStart(working, pos) && inFence == OpenFence(working[..pos])
      invariant HoldsCutsBefore(Sentence, working, pos, cuts)
             || (pos == n && HoldsCutsBefore(Sentence, working, n + 1, cuts))
      invariant pos <= n
    {
      var lineEnd := LineEnd(working, pos);
      var line := working[pos..lineEnd];
      ghost var before := cuts;
      if IsFenceLine(line) {
        NoSentenceInFence(working, pos, cuts);
        inFence := !inFence;
      } else if !inFence {
        var ks := LineSentenceCuts(line);
        cuts := cuts + Shift(ks, pos);
        SentencesOfLine(working, pos, before, ks);
      } else {
        NoSentenceInFence(working, pos, cuts);
      }
      NextLine(Sentence, working, pos, before, cuts);
      if lineEnd < n {
        FenceTracker(working, pos, lineEnd + 1);
        assert Chomp(working[pos..lineEnd + 1]) == line;
      }
      pos := if lineEnd < n then lineEnd + 1 else lineEnd;
    }
    NoLineLeft(Sentence, working, cuts);
  }

  lemma FenceOfLine(w: string, p: nat, cuts: seq<nat>)
    requires p < |w| && LineStart(w, p)
    ensures var e := LineEnd(w, p);
            AddsCutsOf(ClosedFence, w, p, cuts,
                       if IsFenceLine(w[p..e]) && OpenFence(w[..p]) then cuts + [e] else cuts)
  {
  }

  method ClosedFenceCuts(working: string) returns (cuts: seq<nat>)
    ensures forall c: nat :: c in cuts <==> IsLineCut(ClosedFence, working, c)
  {
    hide OpenFence, IsFenceLine, LineCut, LineEnd, IsLineCut, AddsCutsOf;
    cuts := [];
    var inFence := false;
    var pos, n := 0, |working|;
    NothingIsOpen(working);
    while pos < n
      invariant pos < n ==> LineStart(working, pos) && inFence == OpenFence(working[..pos])
      invariant HoldsCutsBefore(ClosedFence, working, pos, cuts)
             || (pos == n && HoldsCutsBefore(ClosedFence, working, n + 1, cuts))
      invariant pos <= n
    {
      var lineEnd := LineEnd(working, pos);
      var line := working[pos..lineEnd];
      ghost var before := cuts;
      FenceOfLine(working, pos, cuts);
      if IsFenceLine(line) {
        inFence := !inFence;
        if !inFence {
          cuts := cuts + [lineEnd];
        }
      }
      NextLine(ClosedFence, working, pos, before, cuts);
      if lineEnd < n {
        FenceTracker(working, pos, lineEnd + 1);
        assert Chomp(working[pos..lineEnd + 1]) == line;
      }
      pos := if lineEnd < n then lineEnd + 1 else lineEnd;
    }
    NoLineLeft(ClosedFence, working, cuts);
  }

  /** Entry i of the list of lines is the line that begins at p. */
  ghost predicate IsStartOf(w: string, i: nat, p: nat) {
    p < |w| && LineStart(w, p) && i < |RawLines(w)| && RawLines(w[p..]) == RawLines(w)[i..]
  }

  lemma LineAt(w: string, p: nat, i: nat)
    requires IsStartOf(w, i, p)
    ensures p < |w| && LineStart(w, p)
    ensures i < |RawLines(w)| && Chomp(RawLines(w)[i]) == w[p..LineEnd(w, p)]
    ensures var e := LineEnd(w, p);
            if e + 1 < |w| then IsStartOf(w, i + 1, e + 1) && i + 1 < |RawLines(w)| else i + 1 == |RawLines(w)|
  {
    hide RawLines, LineEnd, LineLength;
    var rest, e, raws := w[p..], LineEnd(w, p), RawLines(w);
    FirstLineOfRest(w, p);
    RawLinesStep(rest);
    var n := LineLength(rest);
    assert raws[i..][0] == raws[i] && raws[i..][1..] == raws[i + 1..];
    assert rest[n..] == w[p + n..];
    if e + 1 < |w| {
      RawLinesStep(w[e + 1..]);
    }
  }

  lemma FirstLineOfRest(w: string, p: nat)
    requires p < |w|
    ensures LineLength(w[p..]) == if LineEnd(w, p) < |w| then LineEnd(w, p) + 1 - p else |w| - p
    ensures Chomp(w[p..][..LineLength(w[p..])]) == w[p..LineEnd(w, p)]
  {
    hide *;
    LengthOfFirstLine(w, p);
    if LineEnd(w, p) < |w| {
      ChompedAt(w, p, LineEnd(w, p));
    } else {
      UnbrokenRest(w, p);
    }
  }

  lemma LengthOfFirstLine(w: string, p: nat)
    requires p < |w|
    ensures LineLength(w[p..]) == if LineEnd(w, p) < |w| then LineEnd(w, p) + 1 - p else |w| - p
    ensures LineEnd(w, p) < |w| ==> w[LineEnd(w, p)] == '\n'
  {
    hide LineEnd;
    var rest, e := w[p..], LineEnd(w, p);
    assert LineEnd(rest, 0) == e - p by {
      NoBreakBefore(w, p);
      LineEndUnique(rest, 0, e - p);
    }
  }

  lemma UnbrokenRest(w: string, p: nat)
    requires p < |w| && LineEnd(w, p) == |w|
    ensures w[p..][..|w| - p] == w[p..] == w[p..|w|] && Chomp(w[p..]) == w[p..]
  {
    NoBreakBefore(w, p);
    var rest := w[p..];
    assert rest[|rest| - 1] == w[|w| - 1];
  }

  lemma ChompedAt(w: string, p: nat, e: nat)
    requires p <= e < |w| && w[e] == '\n'
    ensures Chomp(w[p..][..e + 1 - p]) == w[p..e]
  {
    assert w[p..][..e + 1 - p] == w[p..e + 1];
    assert w[p..e + 1][..e - p] == w[p..e];
  }

  lemma ItemOfLine(w: string, p: nat, cuts: seq<nat>)
    requires p < |w| && LineStart(w, p)
    ensures var e := LineEnd(w, p);
            AddsCutsOf(ListItem, w, p, cuts,
                       if IsListItem(w[p..e]) && e + 1 < |w|
                          && (Strip(w[e + 1..LineEnd(w, e + 1)]) == "" || IsFormingMarker(w[e + 1..LineEnd(w, e + 1)]))
                       then cuts + [e] else cuts)
  {
    hide LineEnd, IsListItem, Strip, IsFormingMarker;
  }

  lemma FirstStart(w: string)
    requires w != ""
    ensures IsStartOf(w, 0, 0) && RawLines(w) != []
  {
    assert w[0..] == w && RawLines(w)[0..] == RawLines(w);
  }

  ghost predicate FollowsAt(w: string, starts: seq<nat>, i: nat) {
    1 <= i < |starts| && starts[i - 1] <= |w| && starts[i] == LineEnd(w, starts[i - 1]) + 1
  }

  /** The line starts that `_list_item_cuts` adds up from the lengths of the lines. */
  method LineStarts(working: string) returns (starts: seq<nat>)
    requires working != ""
    ensures |starts| == |RawLines(working)| > 0 && starts[0] == 0
    ensures forall i | 0 <= i < |starts| :: IsStartOf(working, i, starts[i])
    ensures forall i | 1 <= i < |starts| :: FollowsAt(working, starts, i)
  {
    hide LineEnd, Chomp, RawLines, IsStartOf;
    var lines := RawLines(working);
    starts := [0];
    FirstStart(working);
    for i := 0 to |lines| - 1
      invariant |starts| == i + 1 && starts[0] == 0
      invariant forall k | 0 <= k <= i :: IsStartOf(working, k, starts[k])
      invariant forall k | 1 <= k <= i :: FollowsAt(working, starts, k)
    {
      assert IsStartOf(working, i, starts[i]);
      LineAt(working, starts[i], i);
      ghost var before := starts;
      starts := starts + [starts[i] + |Chomp(lines[i])| + 1];
      assert forall k | 1 <= k <= i :: FollowsAt(working, before, k) ==> FollowsAt(working, starts, k);
    }
  }

  method ListItemCuts(working: string) returns (cuts: seq<nat>)
    ensures forall c: nat :: c in cuts <==> IsLineCut(ListItem, working, c)
  {
    hide LineEnd, LineCut, IsLineCut, AddsCutsOf, HoldsCutsBefore, IsListItem, IsFormingMarker, Strip, RawLines,
         Chomp, IsStartOf;
    cuts := [];
    var lines := RawLines(working);
    if working == "" {
      NoCutsYet(ListItem, working);
      NoLineLeft(ListItem, working, cuts);
      return;
    }
    NoCutsYet(ListItem, working);
    var starts := LineStarts(working);
    for i := 0 to |lines|
      invariant HoldsCutsBefore(ListItem, working, if i < |lines| then starts[i] else |working|, cuts)
             || (i == |lines| && HoldsCutsBefore(ListItem, working, |working| + 1, cuts))
    {
      var line := Chomp(lines[i]);
      ghost var before := cuts;
      assert IsStartOf(working, i, starts[i])
          && (i + 1 < |lines| ==> IsStartOf(working, i + 1, starts[i + 1]) && FollowsAt(working, starts, i + 1));
      LineAt(working, starts[i], i);
      ItemOfLine(working, starts[i], cuts);
      if IsListItem(line) && i + 1 < |lines| {
        var next := Chomp(lines[i + 1]);
        LineAt(working, starts[i + 1], i + 1);
        if Strip(next) == "" || IsFormingMarker(next) {
          cuts := cuts + [starts[i] + |line|];
        }
      }
      NextLine(ListItem, working, starts[i], before, cuts);
    }
    NoLineLeft(ListItem, working, cuts);
  }

  // ----- long spans

  ghost predicate NoBreakFrom(w: string, start: nat) {
    forall i | start <= i < |w| :: w[i] != '\n'
  }

  ghost predicate NoSpaceFrom(w: string, start: nat) {
    forall i | start <= i < |w| :: !IsSpace(w[i])
  }

  /** The last line break, or in a text without one the last white space, provided that enough
      text precedes it. */
  ghost predicate IsLongSpanCut(w: string, c: nat) {
    && c < |w| && |RStrip(w[..c])| >= LONG_SPAN_MIN_CHARS
    && if NoBreakFrom(w, 0) then IsSpace(w[c]) && NoSpaceFrom(w, c + 1) else w[c] == '\n' && NoBreakFrom(w, c + 1)
  }

  /** `w.rfind("\n")`, with |w| for "not found". */
  function LastBreak(w: string, i: nat): (j: nat)
    requires i <= |w| && NoBreakFrom(w, i)
    ensures if j < |w| then w[j] == '\n' && NoBreakFrom(w, j + 1) else j == |w| && NoBreakFrom(w, 0)
  {
    if i == 0 then |w| else if w[i - 1] == '\n' then i - 1 else LastBreak(w, i - 1)
  }

  lemma LongSpanUnique(w: string, c: nat)
    requires IsLongSpanCut(w, c)
    ensures forall d: nat | IsLongSpanCut(w, d) :: d == c
  {
    hide RStrip;
  }

  /** A cut needs at least as many characters before it as the threshold. */
  lemma NoLongSpanBelow(w: string)
    ensures forall c: nat | c < LONG_SPAN_MIN_CHARS :: !IsLongSpanCut(w, c)
  {
    hide RStrip;
  }

  method LongSpanCut(working: string) returns (cut: nat)
    ensures forall c: nat :: (cut < |working| && c == cut) <==> IsLongSpanCut(working, c)
  {
    hide RStrip;
    var n := |working|;
    var lastNl := LastBreak(working, n);
    NoLongSpanBelow(working);
    if lastNl < n {
      var prefix := RStrip(working[..lastNl]);
      if |prefix| >= LONG_SPAN_MIN_CHARS {
        return lastNl;
      }
      return n;
    }
    if n <= LONG_SPAN_MIN_CHARS {
      return n;
    }
    for i := n downto LONG_SPAN_MIN_CHARS
      invariant forall c: nat | i <= c :: !IsLongSpanCut(working, c)
      invariant NoSpaceFrom(working, i) || |RStrip(working[..i])| < LONG_SPAN_MIN_CHARS
    {
      RStripMonotone(working, i, i + 1);
      if IsSpace(working[i]) {
        var prefix := RStrip(working[..i]);
        if |prefix| >= LONG_SPAN_MIN_CHARS {
          LongSpanUnique(working, i);
          return i;
        }
      }
    }
    cut := n;
  }

  // ----- what the patterns for list items match

  ghost predicate IsIndent(s: string) {
    forall i | 0 <= i < |s| :: s[i] == ' '
  }

  ghost predicate IsNumber(s: string) {
    s != "" && forall i | 0 <= i < |s| :: IsDigit(s[i])
  }

  ghost predicate IsBullet(s: string) {
    s == "-" || s == "*" || s == "+"
  }

  lemma {:induction false} SkipSpacesExactly(line: string, i: nat, a: nat)
    requires i <= a <= |line| && forall k | i <= k < a :: line[k] == ' '
    requires a < |line| ==> line[a] != ' '
    ensures SkipSpaces(line, i) == a
    decreases a - i
  {
    if i < a {
      SkipSpacesExactly(line, i + 1, a);
    }
  }

  lemma {:induction false} SkipDigitsExactly(line: string, i: nat, b: nat)
    requires i <= b <= |line| && forall k | i <= k < b :: IsDigit(line[k])
    requires b < |line| ==> !IsDigit(line[b])
    ensures SkipDigits(line, i) == b
    decreases b - i
  {
    if i < b {
      SkipDigitsExactly(line, i + 1, b);
    }
  }

  lemma {:induction false} SkippedAreSpaces(line: string, i: nat)
    requires i <= |line|
    ensures forall k | i <= k < SkipSpaces(line, i) :: line[k] == ' '
    decreases |line| - i
  {
    if i < |line| && line[i] == ' ' {
      SkippedAreSpaces(line, i + 1);
    }
  }

  lemma {:induction false} SkippedAreDigits(line: string, i: nat)
    requires i <= |line|
    ensures forall k | i <= k < SkipDigits(line, i) :: IsDigit(line[k])
    ensures SkipDigits(line, i) < |line| ==> !IsDigit(line[SkipDigits(line, i)])
    decreases |line| - i
  {
    if i < |line| && IsDigit(line[i]) {
      SkippedAreDigits(line, i + 1);
    }
  }

  /** Indentation, a number and what follows are found where they are written. */
  lemma NumberIsFound(indent: string, number: string, rest: string)
    requires IsIndent(indent) && IsNumber(number) && (rest != "" ==> !IsDigit(rest[0]))
    ensures var line := indent + number + rest;
            SkipSpaces(line, 0) == |indent| && SkipDigits(line, |indent|) == |indent| + |number|
            && (rest != "" ==> line[|indent| + |number|] == rest[0])
  {
    hide IsDigit;
    var line := indent + number + rest;
    assert forall k | 0 <= k < |number| :: line[|indent| + k] == number[k];
    assert forall k | |indent| <= k < |indent| + |number| :: line[k] == number[k - |indent|];
    assert number[0] != ' ' by { DigitIsNoSpace(number[0]); }
    SkipSpacesExactly(line, 0, |indent|);
    SkipDigitsExactly(line, |indent|, |indent| + |number|);
  }

  lemma DigitIsNoSpace(c: char)
    requires IsDigit(c)
    ensures c != ' '
  {
  }

  /** Every line splits into indentation, digits and the rest. */
  lemma LineSplits(line: string) returns (indent: string, digits: string, rest: string)
    ensures line == indent + digits + rest && IsIndent(indent) && (digits != "" ==> IsNumber(digits))
    ensures SkipSpaces(line, 0) == |indent| && SkipDigits(line, |indent|) == |indent| + |digits|
    ensures rest != "" ==> !IsDigit(rest[0])
  {
    hide IsDigit;
    var a := SkipSpaces(line, 0);
    var b := SkipDigits(line, a);
    SkippedAreSpaces(line, 0);
    SkippedAreDigits(line, a);
    indent, digits, rest := line[..a], line[a..b], line[b..];
  }

  lemma BulletIsFound(indent: string, bullet: string, rest: string)
    requires IsIndent(indent) && IsBullet(bullet)
    ensures var line := indent + bullet + rest;
            SkipSpaces(line, 0) == |indent| && SkipDigits(line, |indent|) == |indent| && line[|indent|] == bullet[0]
  {
    var line := indent + bullet + rest;
    SkipSpacesExactly(line, 0, |indent|);
    SkipDigitsExactly(line, |indent|, |indent|);
  }

  /** The marker of a list item: a bullet, or a number and a dot. */
  ghost predicate IsMarker(marker: string) {
    IsBullet(marker) || (|marker| > 1 && IsNumber(marker[..|marker| - 1]) && marker[|marker| - 1] == '.')
  }

  ghost predicate EndsThere(rest: string) {
    rest == "" || IsSpace(rest[0])
  }

  /** `^[ ]*\d+\.(\s|$)` matches with this indentation, number and rest. */
  ghost predicate IsOrdered(line: string, indent: string, number: string, rest: string) {
    line == indent + number + ("." + rest) && IsIndent(indent) && IsNumber(number) && EndsThere(rest)
  }

  /** `^[ ]*([-*+]|\d+\.)\s+\S` matches. */
  ghost predicate IsItem(line: string, indent: string, marker: string, rest: string) {
    && line == indent + marker + rest && IsIndent(indent) && IsMarker(marker)
    && rest != "" && IsSpace(rest[0]) && Strip(rest) != ""
  }

  /** `^[ ]*(\d+\.?|[-*+])(\s|$)` matches. */
  ghost predicate IsForming(line: string, indent: string, marker: string, rest: string) {
    line == indent + marker + rest && IsIndent(indent) && (IsMarker(marker) || IsNumber(marker)) && EndsThere(rest)
  }

  lemma DotAndDigits()
    ensures !IsDigit('.') && !IsSpace('.') && !IsDigit('-') && !IsDigit('*') && !IsDigit('+')
    ensures forall c | IsDigit(c) :: !IsSpace(c) && c != '.' && c !in "-*+"
  {
  }

  lemma OrderedIsFound(line: string, indent: string, number: string, rest: string)
    requires IsOrdered(line, indent, number, rest)
    ensures OrderedMarkerEnd(line) == |indent| + |number| + 1 + (if rest == "" then 0 else 1)
  {
    hide IsSpace, IsDigit, SkipSpaces, SkipDigits, IsIndent;
    DotAndDigits();
    NumberIsFound(indent, number, "." + rest);
    assert rest != "" ==> line[|indent| + |number| + 1] == rest[0];
  }

  lemma OrderedIsSplit(line: string) returns (indent: string, number: string, rest: string)
    requires OrderedMarkerEnd(line) > 0
    ensures IsOrdered(line, indent, number, rest)
  {
    hide IsSpace, IsDigit, SkipSpaces, SkipDigits, IsIndent, IsNumber;
    var tail;
    indent, number, tail := LineSplits(line);
    assert line[|indent| + |number|] == tail[0];
    rest := tail[1..];
    assert tail == "." + rest;
    assert rest != "" ==> line[|indent| + |number| + 1] == rest[0];
  }

  /** Where the marker of an ordered item ends, exactly as the pattern says. */
  lemma OrderedMarkerExactly(line: string)
    ensures OrderedMarkerEnd(line) > 0 <==> exists indent, number, rest :: IsOrdered(line, indent, number, rest)
    ensures forall indent, number, rest | IsOrdered(line, indent, number, rest) ::
              OrderedMarkerEnd(line) == |indent| + |number| + 1 + (if rest == "" then 0 else 1)
  {
    hide OrderedMarkerEnd, IsOrdered;
    forall indent, number, rest | IsOrdered(line, indent, number, rest)
      ensures OrderedMarkerEnd(line) == |indent| + |number| + 1 + (if rest == "" then 0 else 1)
    {
      OrderedIsFound(line, indent, number, rest);
    }
    if OrderedMarkerEnd(line) > 0 {
      var indent, number, rest := OrderedIsSplit(line);
    }
  }

  lemma MarkerIsFound(indent: string, marker: string, rest: string)
    requires IsIndent(indent) && IsMarker(marker)
    ensures MarkerEnd(indent + marker + rest) == |indent| + |marker|
    ensures FormingEnd(indent + marker + rest) == |indent| + |marker|
  {
    hide IsSpace, IsDigit, SkipSpaces, SkipDigits, IsIndent;
    var line := indent + marker + rest;
    DotAndDigits();
    if IsBullet(marker) {
      BulletIsFound(indent, marker, rest);
    } else {
      var number := marker[..|marker| - 1];
      assert line == indent + number + ("." + rest);
      NumberIsFound(indent, number, "." + rest);
      assert line[|indent|] == number[0];
    }
  }

  lemma ItemIsSplit(line: string) returns (indent: string, marker: string, rest: string)
    requires MarkerEnd(line) > 0
    ensures line == indent + marker + rest && IsIndent(indent) && IsMarker(marker)
    ensures MarkerEnd(line) == |indent| + |marker|
  {
    hide IsSpace, IsDigit, SkipSpaces, SkipDigits, IsIndent, IsNumber;
    DotAndDigits();
    var number, tail;
    indent, number, tail := LineSplits(line);
    var m := MarkerEnd(line);
    marker, rest := line[|indent|..m], line[m..];
    if line[|indent|] in "-*+" {
      assert marker == [line[|indent|]];
    } else {
      assert marker == number + ".";
      assert marker[..|marker| - 1] == number;
    }
  }

  /** A line is a list item with content exactly if the pattern matches. */
  lemma ListItemExactly(line: string)
    ensures IsListItem(line) <==> exists indent, marker, rest :: IsItem(line, indent, marker, rest)
  {
    hide MarkerEnd, FormingEnd, IsMarker, IsIndent, Strip, IsSpace;
    if IsListItem(line) {
      var indent, marker, rest := ItemIsSplit(line);
      assert rest == line[MarkerEnd(line)..];
      assert IsItem(line, indent, marker, rest);
    }
    if indent, marker, rest :| IsItem(line, indent, marker, rest) {
      MarkerIsFound(indent, marker, rest);
      assert line[MarkerEnd(line)..] == rest;
      assert MarkerEnd(line) > 0 by { MarkerIsSome(marker); }
    }
  }

  lemma MarkerIsSome(marker: string)
    requires IsMarker(marker) || IsNumber(marker)
    ensures marker != ""
  {
  }

  lemma FormingIsFound(indent: string, marker: string, rest: string)
    requires IsIndent(indent) && (IsMarker(marker) || IsNumber(marker)) && EndsThere(rest)
    ensures FormingEnd(indent + marker + rest) == |indent| + |marker|
  {
    hide IsSpace, IsDigit, SkipSpaces, SkipDigits, IsIndent, IsNumber;
    DotAndDigits();
    if IsMarker(marker) {
      hide IsMarker;
      MarkerIsFound(indent, marker, rest);
    } else {
      assert rest != "" ==> !IsDigit(rest[0]) && rest[0] != '.';
      NumberIsFound(indent, marker, rest);
      MarkerIsSome(marker);
    }
  }

  lemma FormingIsSplit(line: string) returns (indent: string, marker: string, rest: string)
    requires FormingEnd(line) > 0
    ensures line == indent + marker + rest && IsIndent(indent) && (IsMarker(marker) || IsNumber(marker))
    ensures FormingEnd(line) == |indent| + |marker|
  {
    hide IsSpace, IsDigit, SkipSpaces, SkipDigits, IsIndent, IsNumber;
    DotAndDigits();
    var number, tail;
    indent, number, tail := LineSplits(line);
    var m := FormingEnd(line);
    marker, rest := line[|indent|..m], line[m..];
    if number != "" {
      assert marker == number || marker == number + ".";
      assert marker == number + "." ==> marker[..|marker| - 1] == number;
    } else {
      assert marker == [line[|indent|]];
    }
  }

  /** A line begins, or is beginning to be, a list item exactly if the looser pattern matches. */
  lemma FormingMarkerExactly(line: string)
    ensures IsFormingMarker(line) <==> exists indent, marker, rest :: IsForming(line, indent, marker, rest)
  {
    hide FormingEnd, IsMarker, IsIndent, IsNumber, IsSpace;
    if IsFormingMarker(line) {
      var indent, marker, rest := FormingIsSplit(line);
      assert rest == line[FormingEnd(line)..];
      assert IsForming(line, indent, marker, rest);
    }
    if indent, marker, rest :| IsForming(line, indent, marker, rest) {
      FormingIsFound(indent, marker, rest);
      assert line[FormingEnd(line)..] == rest;
      assert FormingEnd(line) > 0 by { MarkerIsSome(marker); }
    }
  }
}

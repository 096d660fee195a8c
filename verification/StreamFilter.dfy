/** `_stream_publishable_prefix` (src/kai/bot.py, lines 741 to 789): the longest prefix of a streamed
    text that is safe to show, and what a longer text can and cannot take back. */
module StreamFilter {
  import opened Text
  import opened InlineMarkdown
  import opened StreamChecks
  import opened StreamCuts

  datatype Publication = Withheld | Publish(text: string)

  datatype Candidate = Candidate(cut: nat, kind: Kind)

  function Priority(kind: Kind): nat {
    match kind
    case Sentence => 1
    case Paragraph => 2
    case ListItem => 3
    case ClosedFence => 4
    case LongSpan => 5
    case Full => 6
  }

  ghost predicate IsCandidate(w: string, c: nat, kind: Kind) {
    && c <= |w|
    && match kind
       case Paragraph => IsParagraphCut(w, c)
       case LongSpan => IsLongSpanCut(w, c)
       case Full => c == |w|
       case _ => IsLineCut(kind, w, c)
  }

  ghost predicate Passes(candidate: string, kind: Kind) {
    candidate != "" && !OpenFence(candidate) && !Unbalanced(candidate) && !Dangling(candidate, kind)
  }

  /** A cut of the text that is a boundary of its kind and leaves a prefix that passes the checks. */
  ghost predicate Publishable(w: string, c: nat, kind: Kind) {
    IsCandidate(w, c, kind) && Passes(RStrip(w[..c]), kind)
  }

  /** The promise of the filter: every publishable prefix of the text is a prefix of the answer,
      which is itself publishable; without a publishable prefix nothing is shown. */
  ghost predicate IsLongestPublishable(text: string, r: Publication) {
    var w := RStrip(text);
    match r
    case Withheld => forall c: nat, kind :: !Publishable(w, c, kind)
    case Publish(s) =>
      && (exists c: nat, kind :: Publishable(w, c, kind) && s == RStrip(w[..c]))
      && forall c: nat, kind | Publishable(w, c, kind) :: RStrip(w[..c]) <= s
  }

  // ----- ordering the candidates

  predicate Before(a: Candidate, b: Candidate) {
    a.cut > b.cut || (a.cut == b.cut && Priority(a.kind) <= Priority(b.kind))
  }

  ghost predicate Ordered(cs: seq<Candidate>) {
    forall i, j | 0 <= i < j < |cs| :: Before(cs[i], cs[j])
  }

  method InsertInOrder(x: Candidate, cs: seq<Candidate>) returns (r: seq<Candidate>)
    requires Ordered(cs)
    ensures Ordered(r) && multiset(r) == multiset(cs) + multiset{x}
  {
    hide Ordered, Before;
    var i := 0;
    while i < |cs| && Before(cs[i], x)
      invariant 0 <= i <= |cs|
      invariant forall k | 0 <= k < i :: Before(cs[k], x)
    {
      i := i + 1;
    }
    r := cs[..i] + [x] + cs[i..];
    InsertedInOrder(cs, i, x);
    assert cs == cs[..i] + cs[i..];
  }

  lemma InsertedInOrder(cs: seq<Candidate>, i: nat, x: Candidate)
    requires Ordered(cs) && i <= |cs| && (forall k | 0 <= k < i :: Before(cs[k], x)) && (i < |cs| ==> !Before(cs[i], x))
    ensures Ordered(cs[..i] + [x] + cs[i..])
  {
    forall k | i <= k < |cs|
      ensures Before(x, cs[k])
    {
      assert Before(x, cs[i]);
      if i < k {
        assert Before(cs[i], cs[k]);
      }
    }
  }

  /** `candidates.sort(...)` */
  method SortCandidates(cs: seq<Candidate>) returns (r: seq<Candidate>)
    ensures Ordered(r) && multiset(r) == multiset(cs)
  {
    hide Ordered, Before;
    r := [];
    assert Ordered([]) by { NothingToOrder(); }
    for i := 0 to |cs|
      invariant Ordered(r) && multiset(r) == multiset(cs[..i])
    {
      r := InsertInOrder(cs[i], r);
      assert cs[..i + 1] == cs[..i] + [cs[i]];
    }
    assert cs[..|cs|] == cs;
  }

  lemma NothingToOrder()
    ensures Ordered([])
  {
  }

  lemma SameElements(a: seq<Candidate>, b: seq<Candidate>)
    requires multiset(a) == multiset(b)
    ensures forall c :: c in a <==> c in b
  {
    forall c
      ensures c in a <==> c in b
    {
      assert c in a <==> c in multiset(a);
      assert c in b <==> c in multiset(b);
    }
  }

  function Tag(cuts: seq<nat>, kind: Kind): seq<Candidate> {
    seq(|cuts|, i requires 0 <= i < |cuts| => Candidate(cuts[i], kind))
  }

  lemma Tagged(cuts: seq<nat>, kind: Kind)
    ensures forall c :: c in Tag(cuts, kind) <==> c.kind == kind && c.cut in cuts
  {
    forall c: Candidate | c.kind == kind && c.cut in cuts
      ensures c in Tag(cuts, kind)
    {
      var i :| 0 <= i < |cuts| && cuts[i] == c.cut;
      assert Tag(cuts, kind)[i] == c;
    }
  }

  lemma CutsAreInside(w: string, c: nat, kind: Kind)
    requires IsParagraphCut(w, c) || IsLineCut(kind, w, c) || IsLongSpanCut(w, c)
    ensures c <= |w|
  {
  }

  method Candidates(working: string) returns (cs: seq<Candidate>)
    ensures forall c :: c in cs <==> IsCandidate(working, c.cut, c.kind)
    ensures forall c | c in cs :: c.cut <= |working|
  {
    hide IsParagraphCut, IsLongSpanCut, IsLineCut, Tag;
    var paragraphs := ParagraphCuts(working);
    var sentences := SentenceCuts(working);
    var closedFences := ClosedFenceCuts(working);
    var listItems := ListItemCuts(working);
    var longSpan := LongSpanCut(working);
    Tagged(paragraphs, Paragraph);
    Tagged(sentences, Sentence);
    Tagged(closedFences, ClosedFence);
    Tagged(listItems, ListItem);
    cs := Tag(paragraphs, Paragraph) + Tag(sentences, Sentence) + Tag(closedFences, ClosedFence)
        + Tag(listItems, ListItem);
    if longSpan < |working| {
      cs := cs + [Candidate(longSpan, LongSpan)];
    }
    cs := cs + [Candidate(|working|, Full)];
    forall c: Candidate | IsParagraphCut(working, c.cut) || IsLineCut(c.kind, working, c.cut)
                         || IsLongSpanCut(working, c.cut)
      ensures c.cut <= |working|
    {
      CutsAreInside(working, c.cut, c.kind);
    }
  }

  // ----- the filter

  /** The checks of a weaker kind include those of a stronger one, so a position that fails as the
      strongest kind found there fails as every other. */
  lemma WeakerKindsPassLess(candidate: string, strong: Kind, weak: Kind)
    requires Priority(strong) <= Priority(weak)
    ensures Passes(candidate, weak) ==> Passes(candidate, strong)
  {
  }

  method PassesChecks(candidate: string, kind: Kind) returns (ok: bool)
    ensures ok == Passes(candidate, kind)
  {
    hide OpenFence, Unbalanced, Dangling;
    if candidate == "" {
      return false;
    }
    var open := HasOpenFencedCode(candidate);
    if open {
      return false;
    }
    var unbalanced := HasUnbalancedInlineMarkdown(candidate);
    if unbalanced {
      return false;
    }
    var dangling := HasDanglingFinalLine(candidate, kind);
    ok := !dangling;
  }

  lemma FirstPassingIsLongest(w: string, cs: seq<Candidate>, i: nat)
    requires Ordered(cs) && i < |cs| && cs[i].cut <= |w| && Publishable(w, cs[i].cut, cs[i].kind)
    requires forall c :: c in cs <==> IsCandidate(w, c.cut, c.kind)
    requires forall j | 0 <= j < i :: !Publishable(w, cs[j].cut, cs[j].kind)
    ensures forall c: nat, kind | Publishable(w, c, kind) :: RStrip(w[..c]) <= RStrip(w[..cs[i].cut])
  {
    hide Passes, RStrip, IsCandidate;
    forall c: nat, kind | Publishable(w, c, kind)
      ensures IsCandidate(w, c, kind) && c <= |w| && RStrip(w[..c]) <= RStrip(w[..cs[i].cut])
    {
      assert Candidate(c, kind) in cs;
      var j :| 0 <= j < |cs| && cs[j] == Candidate(c, kind);
      assert j >= i;
      assert c <= cs[i].cut;
      RStripMonotone(w, c, cs[i].cut);
    }
  }

  /** All fences are closed, and outside them all code spans, labels and links are whole. The last line
      stops in none either, unless it is a fence. */
  ghost predicate IsWhole(s: string) {
    var lines := RawLines(s);
    && |FencesAt(lines, |lines|)| % 2 == 0
    && HasOnlyWholeInline(Outside(s)) && !EndsInTarget(Outside(s)) && !EndsInLabel(Outside(s))
    && (lines != [] ==>
          var last := Chomp(lines[|lines| - 1]);
          IsFenceLine(last) || !EndsInsideInline(last))
  }

  /** Every shown text is a part of the streamed one, and whole. */
  lemma ShownTextIsWhole(text: string, r: Publication)
    requires IsLongestPublishable(text, r) && r.Publish?
    ensures r.text != "" && r.text <= text && IsWhole(r.text)
  {
    hide RStrip, IsCandidate, Unbalanced, HasOnlyWholeInline, Outside, EndsInTarget, EndsInLabel, EndsInsideInline,
        IsFenceLine, RawLines, FenceCount, FencesAt, Strip, Chomp;
    PublishableIsInside(RStrip(text));
    WholeInlineExactlyIf(r.text);
    FenceCountExactly(RawLines(r.text), |RawLines(r.text)|);
    assert RStrip(r.text) == r.text by { RStripTwice(text, r); }
  }

  lemma RStripTwice(text: string, r: Publication)
    requires IsLongestPublishable(text, r) && r.Publish?
    ensures RStrip(r.text) == r.text
  {
    hide RStrip, Publishable;
    RStripUnique(r.text, r.text);
  }

  method StreamPublishablePrefix(text: string) returns (r: Publication)
    ensures IsLongestPublishable(text, r)
    ensures r.Publish? ==> r.text != "" && r.text <= text && IsWhole(r.text)
  {
    hide RStrip, Strip, Passes, IsCandidate, Ordered, IsWhole;
    if text == "" || Strip(text) == "" {
      BlankTextsAreWithheld(text);
      return Withheld;
    }
    var working := RStrip(text);
    var unsorted := Candidates(working);
    var candidates := SortCandidates(unsorted);
    SameElements(unsorted, candidates);
    var seen: set<nat> := {};
    for i := 0 to |candidates|
      invariant forall j | 0 <= j < i :: !Publishable(working, candidates[j].cut, candidates[j].kind)
      invariant forall p :: p in seen <==> exists j :: 0 <= j < i && candidates[j].cut == p
    {
      var Candidate(cut, kind) := candidates[i];
      assert candidates[i] in candidates;
      if cut in seen {
        SeenPositionFails(working, candidates, i);
        continue;
      }
      seen := seen + {cut};
      var candidate := RStrip(working[..cut]);
      var ok := PassesChecks(candidate, kind);
      if ok {
        FirstPassingIsLongest(working, candidates, i);
        ShownTextIsWhole(text, Publish(candidate));
        return Publish(candidate);
      }
    }
    NoneIsPublishable(working, candidates);
    r := Withheld;
  }

  /** A position that failed as an earlier kind fails as every later one. */
  lemma SeenPositionFails(w: string, cs: seq<Candidate>, i: nat)
    requires Ordered(cs) && i < |cs| && forall c :: c in cs <==> IsCandidate(w, c.cut, c.kind)
    requires forall j | 0 <= j < i :: !Publishable(w, cs[j].cut, cs[j].kind)
    requires exists j :: 0 <= j < i && cs[j].cut == cs[i].cut
    ensures !Publishable(w, cs[i].cut, cs[i].kind)
  {
    hide RStrip, Passes, IsCandidate;
    var j :| 0 <= j < i && cs[j].cut == cs[i].cut;
    assert Before(cs[j], cs[i]) && cs[j] in cs;
    PublishableIsInside(w);
    if Publishable(w, cs[i].cut, cs[i].kind) {
      WeakerKindsPassLess(RStrip(w[..cs[i].cut]), cs[j].kind, cs[i].kind);
    }
  }

  lemma NoneIsPublishable(w: string, cs: seq<Candidate>)
    requires forall c :: c in cs <==> IsCandidate(w, c.cut, c.kind)
    requires forall j | 0 <= j < |cs| :: !Publishable(w, cs[j].cut, cs[j].kind)
    ensures forall c: nat, kind :: !Publishable(w, c, kind)
  {
    hide RStrip, Passes, IsCandidate;
    forall c: nat, kind
      ensures !Publishable(w, c, kind)
    {
      if Candidate(c, kind) in cs {
        var j :| 0 <= j < |cs| && cs[j] == Candidate(c, kind);
      }
    }
  }

  lemma BlankTextsAreWithheld(text: string)
    requires text == "" || Strip(text) == ""
    ensures IsLongestPublishable(text, Withheld)
  {
    StripBlank(text);
    assert RStrip(text) == "";
    assert RStrip("") == "";
  }

  /** Every text has an answer that keeps the promise. */
  lemma PublicationExists(text: string)
    ensures exists r :: IsLongestPublishable(text, r)
  {
    hide RStrip, Publishable;
    var w := RStrip(text);
    if cut: nat, kind :| Publishable(w, cut, kind) {
      var c, k := LongestCut(w, cut, kind);
      forall d: nat, other | Publishable(w, d, other)
        ensures RStrip(w[..d]) <= RStrip(w[..c])
      {
        RStripMonotone(w, d, c);
      }
      assert IsLongestPublishable(text, Publish(RStrip(w[..c])));
    } else {
      assert IsLongestPublishable(text, Withheld);
    }
  }

  lemma {:induction false} LongestCut(w: string, cut: nat, kind: Kind) returns (c: nat, k: Kind)
    requires Publishable(w, cut, kind)
    ensures Publishable(w, c, k) && c <= |w| && forall d: nat, other | Publishable(w, d, other) :: d <= c
    decreases |w| - cut
  {
    PublishableIsInside(w);
    if d: nat, other :| Publishable(w, d, other) && d > cut {
      c, k := LongestCut(w, d, other);
    } else {
      c, k := cut, kind;
    }
  }

  lemma PublishableIsInside(w: string)
    ensures forall c: nat, kind | Publishable(w, c, kind) :: c <= |w|
  {
    hide RStrip, Passes;
  }

  /** The promise leaves no choice. */
  lemma PublicationIsUnique(text: string, a: Publication, b: Publication)
    requires IsLongestPublishable(text, a) && IsLongestPublishable(text, b)
    ensures a == b
  {
    hide RStrip, Publishable;
    if a.Publish? && b.Publish? {
      assert a.text <= b.text && b.text <= a.text;
    }
  }
}

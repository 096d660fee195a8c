/** What the chunker keeps (scripts/migrate-memory-md-to-qdrant.py, lines 114 to 261). */
module ChunkerProperties {
  import opened Options
  import opened Text
  import opened Slug
  import opened MemoryChunker

  // ----- conservation of lines

  /** The lines that open no segment, headings of the fourth level and deeper included. */
  function BodyLines(lines: seq<string>): seq<string> {
    if lines == [] then [] else
      BodyLines(lines[..|lines| - 1]) + (if OpensSegment(lines[|lines| - 1]) then [] else [lines[|lines| - 1]])
  }

  /** The bodies of the segments, one after the other. */
  function AllLines(segments: seq<Segment>): seq<string> {
    if segments == [] then [] else AllLines(segments[..|segments| - 1]) + segments[|segments| - 1].body
  }

  /** What a line is to the segment pass. */
  datatype Item = Head(heading: Heading) | Body(line: string)

  function ItemOf(line: string): Item {
    if OpensSegment(line) then Head(HeadingOf(line).value) else Body(line)
  }

  function ItemsOf(lines: seq<string>): seq<Item> {
    seq(|lines|, i requires 0 <= i < |lines| => ItemOf(lines[i]))
  }

  function Bodies(lines: seq<string>): seq<Item> {
    seq(|lines|, i requires 0 <= i < |lines| => Body(lines[i]))
  }

  /** The heads and the lines of the segments, one after the other. */
  function Items(segments: seq<Segment>): seq<Item> {
    if segments == [] then [] else
      var last := segments[|segments| - 1];
      Items(segments[..|segments| - 1]) + [Head(Heading(last.level, last.title))] + Bodies(last.body)
  }

  function ChunksVisible(chunks: seq<Chunk>): seq<string> {
    if chunks == [] then [] else ChunksVisible(chunks[..|chunks| - 1]) + VisibleText(chunks[|chunks| - 1].body)
  }

  /** The title lines that the rollup writes into the parents. */
  function TitleLines(folded: seq<Chunk>): seq<string> {
    if folded == [] then [] else TitleLines(folded[..|folded| - 1]) + VisibleText("### " + folded[|folded| - 1].title)
  }

  /** How often a line occurs. */
  function Times(t: string, lines: seq<string>): nat {
    multiset(lines)[t]
  }

  lemma TimesConcat(t: string, a: seq<string>, b: seq<string>)
    ensures Times(t, a + b) == Times(t, a) + Times(t, b)
  {
  }

  lemma NothingOccurs(t: string)
    ensures Times(t, []) == 0
  {
  }

  lemma SegmentsStep(lines: seq<string>)
    requires lines != []
    ensures var front, line := SegmentsOf(lines[..|lines| - 1]), lines[|lines| - 1];
            if OpensSegment(line)
            then HeadingOf(line).Some?
                 && SegmentsOf(lines)
                    == front + [Segment(HeadingOf(line).value.title, HeadingOf(line).value.level, [])]
                 && BodyLines(lines) == BodyLines(lines[..|lines| - 1])
            else SegmentsOf(lines) == AppendLine(front, line)
                 && BodyLines(lines) == BodyLines(lines[..|lines| - 1]) + [line]
  {
    hide HeadingOf;
  }

  lemma AllLinesSnoc(segments: seq<Segment>, s: Segment)
    ensures AllLines(segments + [s]) == AllLines(segments) + s.body
    ensures Items(segments + [s]) == Items(segments) + [Head(Heading(s.level, s.title))] + Bodies(s.body)
  {
    assert (segments + [s])[..|segments|] == segments;
  }

  lemma AppendLineAddsIt(segments: seq<Segment>, line: string)
    requires segments != []
    ensures AllLines(AppendLine(segments, line)) == AllLines(segments) + [line]
    ensures Items(AppendLine(segments, line)) == Items(segments) + [Body(line)]
  {
    var n := |segments| - 1;
    assert AppendLine(segments, line)[..n] == segments[..n];
    assert Bodies(segments[n].body + [line]) == Bodies(segments[n].body) + [Body(line)];
  }

  lemma NothingRead()
    ensures AllLines(SegmentsOf([])) == BodyLines([]) && Items(SegmentsOf([])) == [Head(Heading(1, ""))] + ItemsOf([])
  {
    assert [Segment("", 1, [])][..0] == [];
  }

  /** The segments hold the headings and the other lines of the file as they follow one another, after
      a head for the preamble; so their bodies are the body lines in order. */
  lemma {:induction false} SegmentsKeepLines(lines: seq<string>)
    ensures AllLines(SegmentsOf(lines)) == BodyLines(lines)
    ensures Items(SegmentsOf(lines)) == [Head(Heading(1, ""))] + ItemsOf(lines)
  {
    hide HeadingOf, OpensSegment, SegmentsOf, BodyLines, AllLines, AppendLine, Items;
    if lines == [] {
      NothingRead();
    } else {
      var front, line := lines[..|lines| - 1], lines[|lines| - 1];
      SegmentsKeepLines(front);
      SegmentsStep(lines);
      var segments := SegmentsOf(front);
      assert ItemsOf(lines) == ItemsOf(front) + [ItemOf(line)];
      if OpensSegment(line) {
        assert Bodies([]) == [];
        AllLinesSnoc(segments, Segment(HeadingOf(line).value.title, HeadingOf(line).value.level, []));
      } else {
        AppendLineAddsIt(segments, line);
      }
    }
  }

  lemma {:induction false} BodyLinesAreLines(lines: seq<string>)
    ensures forall l | l in BodyLines(lines) :: l in lines
  {
    if lines != [] {
      BodyLinesAreLines(lines[..|lines| - 1]);
    }
  }

  /** A line of the file that opens no segment has no line break inside. */
  lemma SegmentsAreUnbroken(lines: seq<string>)
    requires Unbroken(lines)
    ensures Unbroken(AllLines(SegmentsOf(lines)))
  {
    SegmentsKeepLines(lines);
    BodyLinesAreLines(lines);
  }

  lemma {:induction false} DropLeadingKeeps(lines: seq<string>)
    ensures Visible(DropLeadingBlank(lines)) == Visible(lines)
    ensures forall l | l in DropLeadingBlank(lines) :: l in lines
  {
    hide Strip;
    if lines != [] && Strip(lines[0]) == "" {
      DropLeadingKeeps(lines[1..]);
      assert lines == [lines[0]] + lines[1..];
      VisibleConcat([lines[0]], lines[1..]);
      VisibleOne(lines[0]);
    }
  }

  lemma {:induction false} DropTrailingKeeps(lines: seq<string>)
    ensures Visible(DropTrailingBlank(lines)) == Visible(lines)
    ensures forall l | l in DropTrailingBlank(lines) :: l in lines
  {
    hide Strip;
    if lines != [] && Strip(lines[|lines| - 1]) == "" {
      DropTrailingKeeps(lines[..|lines| - 1]);
    }
  }

  lemma BodyTextKeeps(segment: Segment)
    requires Unbroken(segment.body)
    ensures VisibleText(BodyText(segment)) == Visible(segment.body)
  {
    hide Strip, JoinLines, DropLeadingBlank, DropTrailingBlank, Visible, VisibleText;
    DropLeadingKeeps(segment.body);
    var lines := DropTrailingBlank(DropLeadingBlank(segment.body));
    DropTrailingKeeps(DropLeadingBlank(segment.body));
    VisibleJoin(lines);
    VisibleStrip(JoinLines(lines));
  }

  lemma EmptyTextShowsNothing()
    ensures VisibleText("") == []
  {
  }

  lemma ChunksStep(lower: string -> string, segments: seq<Segment>)
    requires segments != []
    ensures var front, last := segments[..|segments| - 1], segments[|segments| - 1];
            ChunksOf(lower, segments) == if last.level == 2 || BodyText(last) != ""
                                  then ChunksOf(lower, front) + [ChunkOf(lower, last, LastH2(front))]
                                  else ChunksOf(lower, front)
    ensures var front, last := segments[..|segments| - 1], segments[|segments| - 1];
            ChunkOf(lower, last, LastH2(front)).body == BodyText(last)
  {
    hide BodyText;
  }

  /** The chunks show the lines of the segments in order. */
  lemma {:induction false} ChunksKeepLines(lower: string -> string, segments: seq<Segment>)
    requires Unbroken(AllLines(segments))
    ensures ChunksVisible(ChunksOf(lower, segments)) == Visible(AllLines(segments))
  {
    hide BodyText, Visible, VisibleText, ChunksOf, ChunkOf;
    if segments == [] {
      assert ChunksOf(lower, segments) == [] by { NoChunks(lower); }
      VisibleOne("");
    } else {
      var front, last := segments[..|segments| - 1], segments[|segments| - 1];
      assert AllLines(segments) == AllLines(front) + last.body;
      VisibleConcat(AllLines(front), last.body);
      ChunksKeepLines(lower, front);
      BodyTextKeeps(last);
      EmptyTextShowsNothing();
      ChunksStep(lower, segments);
    }
  }

  lemma NoChunks(lower: string -> string)
    ensures ChunksOf(lower, []) == []
  {
  }

  lemma FoldAddsTitleAndBody(parent: Chunk, chunk: Chunk)
    ensures VisibleText(FoldInto(parent, chunk).body)
         == VisibleText(parent.body) + (VisibleText("### " + chunk.title) + VisibleText(chunk.body))
  {
    hide VisibleText;
    var title := "### " + chunk.title;
    var tail := title + ['\n'] + chunk.body;
    LineBreakJoins(title, chunk.body);
    if parent.body == "" {
      assert FoldInto(parent, chunk).body == tail;
      EmptyTextShowsNothing();
    } else {
      assert FoldInto(parent, chunk).body == parent.body + ['\n'] + (['\n'] + tail);
      LineBreakJoins(parent.body, ['\n'] + tail);
      SpaceBefore('\n', tail);
    }
  }

  lemma {:induction false} ChunksVisibleUpdate(chunks: seq<Chunk>, i: nat, c: Chunk, more: seq<string>, t: string)
    requires i < |chunks| && VisibleText(c.body) == VisibleText(chunks[i].body) + more
    ensures Times(t, ChunksVisible(chunks[i := c])) == Times(t, ChunksVisible(chunks)) + Times(t, more)
  {
    hide VisibleText, Times;
    var n := |chunks| - 1;
    var front := chunks[..n];
    TimesConcat(t, ChunksVisible(front), VisibleText(chunks[n].body));
    if i == n {
      assert chunks[i := c][..n] == front;
      TimesConcat(t, ChunksVisible(front), VisibleText(c.body));
      TimesConcat(t, VisibleText(chunks[n].body), more);
    } else {
      assert chunks[i := c][..n] == front[i := c];
      ChunksVisibleUpdate(front, i, c, more, t);
      TimesConcat(t, ChunksVisible(front[i := c]), VisibleText(chunks[n].body));
    }
  }

  lemma {:induction false} RollUpKeepsLines(chunks: seq<Chunk>, tokens: string -> nat, limit: nat, t: string)
    ensures var r := RollUp(chunks, tokens, limit);
            Times(t, ChunksVisible(r.chunks)) == Times(t, ChunksVisible(chunks)) + Times(t, TitleLines(r.folded))
  {
    hide VisibleText, FoldInto, Times;
    if chunks == [] {
      NothingOccurs(t);
    } else {
      var front, chunk := chunks[..|chunks| - 1], chunks[|chunks| - 1];
      RollUpKeepsLines(front, tokens, limit, t);
      var r := RollUp(front, tokens, limit);
      var title := VisibleText("### " + chunk.title);
      TimesConcat(t, ChunksVisible(front), VisibleText(chunk.body));
      if chunk.level != 2 && IsFolded(r, chunk, tokens, limit) {
        var i := r.lastH2.value;
        FoldAddsTitleAndBody(r.chunks[i], chunk);
        ChunksVisibleUpdate(r.chunks, i, FoldInto(r.chunks[i], chunk), title + VisibleText(chunk.body), t);
        TimesConcat(t, title, VisibleText(chunk.body));
        TimesConcat(t, TitleLines(r.folded), title);
        assert (r.folded + [chunk])[..|r.folded|] == r.folded;
      } else {
        TimesConcat(t, ChunksVisible(r.chunks), VisibleText(chunk.body));
        assert (r.chunks + [chunk])[..|r.chunks|] == r.chunks;
      }
    }
  }

  lemma {:induction false} FilterKeepsLines(chunks: seq<Chunk>)
    ensures ChunksVisible(WithBody(chunks)) == ChunksVisible(chunks)
  {
    hide VisibleText, Strip;
    if chunks != [] {
      var front, last := chunks[..|chunks| - 1], chunks[|chunks| - 1];
      FilterKeepsLines(front);
      VisibleStrip(last.body);
      EmptyTextShowsNothing();
      assert Strip(last.body) == "" ==> WithBody(chunks) == WithBody(front);
    }
  }

  lemma ChompedIsUnbroken(text: string)
    ensures Unbroken(ChompedLines(text))
  {
    forall l | l in ChompedLines(text)
      ensures '\n' !in l
    {
      var i :| 0 <= i < |RawLines(text)| && ChompedLines(text)[i] == l;
      RawLineBreaksAtEnd(text, i);
    }
  }

  lemma {:induction false} RawLineBreaksAtEnd(text: string, i: nat)
    requires i < |RawLines(text)|
    ensures '\n' !in Chomp(RawLines(text)[i])
    decreases |text|
  {
    if i > 0 {
      RawLineBreaksAtEnd(text[LineLength(text)..], i - 1);
    } else {
      NoBreakBefore(text, 0);
    }
  }

  /** Before the rollup the chunks show the body lines of the file in order. */
  lemma BuiltChunksKeepOrder(lower: string -> string, text: string)
    ensures ChunksVisible(ChunksOf(lower, SegmentsOf(ChompedLines(text)))) == Visible(BodyLines(ChompedLines(text)))
  {
    hide ChunksVisible, Visible, ChunksOf, SegmentsOf, ChompedLines, BodyLines, AllLines, Unbroken;
    ChompedIsUnbroken(text);
    SegmentsKeepLines(ChompedLines(text));
    SegmentsAreUnbroken(ChompedLines(text));
    ChunksKeepLines(lower, SegmentsOf(ChompedLines(text)));
  }

  /** Over all chunks, the visible body lines are those of the file, with the title lines of the
      rolled-up chunks and nothing else added to them. */
  lemma ChunkingConservesContent(lower: string -> string, text: string, tokens: string -> nat, limit: nat, t: string)
    ensures var r := RollUp(ChunksOf(lower, SegmentsOf(ChompedLines(text))), tokens, limit);
            Times(t, ChunksVisible(WithBody(r.chunks)))
            == Times(t, Visible(BodyLines(ChompedLines(text)))) + Times(t, TitleLines(r.folded))
  {
    hide ChunksVisible, Visible, TitleLines, RollUp, ChunksOf, SegmentsOf, WithBody, ChompedLines, BodyLines, Times;
    BuiltChunksKeepOrder(lower, text);
    var built := ChunksOf(lower, SegmentsOf(ChompedLines(text)));
    RollUpKeepsLines(built, tokens, limit, t);
    FilterKeepsLines(RollUp(built, tokens, limit).chunks);
  }

  // ----- where every chunk ends up

  /** Chunk k is the last one of level 2 before chunk m. */
  ghost predicate IsParent(chunks: seq<Chunk>, k: int, m: int) {
    0 <= k < m < |chunks| && chunks[k].level == 2 && forall i | k < i < m :: chunks[i].level != 2
  }

  /** A level-3 chunk names the title of the last level-2 chunk before it, if there is one. */
  ghost predicate NamesItsParent(chunks: seq<Chunk>, m: int)
    requires 0 <= m < |chunks|
  {
    chunks[m].level == 3 ==>
      && (forall k | IsParent(chunks, k, m) :: chunks[m].parentH2 == Some(chunks[k].title))
      && ((forall k :: !IsParent(chunks, k, m)) ==> chunks[m].parentH2 == None)
  }

  ghost predicate NameTheirParents(chunks: seq<Chunk>) {
    forall m | 0 <= m < |chunks| :: NamesItsParent(chunks, m)
  }

  /** Chunk m is small and of level 3, and chunk k is its parent. */
  ghost predicate GoesInto(chunks: seq<Chunk>, tokens: string -> nat, limit: nat, m: int, k: int) {
    IsParent(chunks, k, m) && chunks[m].level == 3 && tokens(chunks[m].body) < limit
  }

  ghost predicate GoesAway(chunks: seq<Chunk>, tokens: string -> nat, limit: nat, m: int) {
    exists k :: GoesInto(chunks, tokens, limit, m, k)
  }

  /** The lines of chunk k and, for every chunk before position n that goes into it, the title line and
      the lines of that chunk. */
  ghost function Gathered(chunks: seq<Chunk>, tokens: string -> nat, limit: nat, k: int, n: int): seq<string>
    requires 0 <= k < |chunks| && n <= |chunks|
    decreases n
  {
    if n <= k + 1 then VisibleText(chunks[k].body) else
      Gathered(chunks, tokens, limit, k, n - 1)
      + (if GoesInto(chunks, tokens, limit, n - 1, k)
         then VisibleText("### " + chunks[n - 1].title) + VisibleText(chunks[n - 1].body) else [])
  }

  predicate SameHead(c: Chunk, d: Chunk) {
    c.title == d.title && c.level == d.level && c.parentH2 == d.parentH2 && c.tagSlug == d.tagSlug
  }

  /** The result holds, in order, the chunks before position n that do not go away, each with what goes
      into it. */
  ghost predicate IsArranged(chunks: seq<Chunk>, tokens: string -> nat, limit: nat, n: nat, result: seq<Chunk>,
                             at: seq<int>) {
    && n <= |chunks| && |at| == |result|
    && (forall i | 0 <= i < |at| ::
          && 0 <= at[i] < n && SameHead(result[i], chunks[at[i]]) && !GoesAway(chunks, tokens, limit, at[i])
          && VisibleText(result[i].body) == Gathered(chunks, tokens, limit, at[i], n))
    && (forall i, j | 0 <= i < j < |at| :: at[i] < at[j])
    && (forall k | 0 <= k < n && !GoesAway(chunks, tokens, limit, k) :: k in at)
  }

  /** The last level-2 chunk before position n is kept at i. */
  ghost predicate HeadsAt(chunks: seq<Chunk>, n: nat, lastH2: Maybe<nat>, at: seq<int>)
    requires n <= |chunks|
  {
    match lastH2
    case None => forall k | 0 <= k < n :: chunks[k].level != 2
    case Some(i) =>
      i < |at| && 0 <= at[i] < n && chunks[at[i]].level == 2 && forall k | at[i] < k < n :: chunks[k].level != 2
  }

  lemma HeadIsParent(chunks: seq<Chunk>, n: nat, lastH2: Maybe<nat>, at: seq<int>)
    requires n < |chunks| && HeadsAt(chunks, n, lastH2, at)
    ensures lastH2.None? ==> forall k :: !IsParent(chunks, k, n)
    ensures lastH2.Some? ==> forall k :: IsParent(chunks, k, n) <==> k == at[lastH2.value]
  {
  }

  lemma FoldsExactlyIfItGoesAway(chunks: seq<Chunk>, tokens: string -> nat, limit: nat, n: nat, r: Rollup, at: seq<int>)
    requires n < |chunks| && NamesItsParent(chunks, n) && PointsAtH2(r)
    requires IsArranged(chunks, tokens, limit, n, r.chunks, at) && HeadsAt(chunks, n, r.lastH2, at)
    ensures chunks[n].level != 2 && IsFolded(r, chunks[n], tokens, limit) <==> GoesAway(chunks, tokens, limit, n)
    ensures forall k :: (GoesInto(chunks, tokens, limit, n, k)
              <==> GoesAway(chunks, tokens, limit, n) && r.lastH2.Some? && k == at[r.lastH2.value])
  {
    hide VisibleText, Gathered;
    HeadIsParent(chunks, n, r.lastH2, at);
    if r.lastH2.Some? {
      var k := at[r.lastH2.value];
      assert IsParent(chunks, k, n);
      assert r.chunks[r.lastH2.value].title == chunks[k].title;
      assert GoesInto(chunks, tokens, limit, n, k) <==> chunks[n].level == 3 && tokens(chunks[n].body) < limit;
    }
  }

  lemma GatheredStep(chunks: seq<Chunk>, tokens: string -> nat, limit: nat, k: int, n: nat)
    requires 0 <= k <= n < |chunks|
    ensures Gathered(chunks, tokens, limit, k, n + 1)
         == if k < n && GoesInto(chunks, tokens, limit, n, k)
            then Gathered(chunks, tokens, limit, k, n)
                 + (VisibleText("### " + chunks[n].title) + VisibleText(chunks[n].body))
            else if k < n then Gathered(chunks, tokens, limit, k, n)
            else VisibleText(chunks[n].body)
  {
    hide GoesInto, VisibleText;
  }

  lemma ArrangedByAppending(chunks: seq<Chunk>, tokens: string -> nat, limit: nat, n: nat, result: seq<Chunk>,
                            at: seq<int>)
    requires n < |chunks| && IsArranged(chunks, tokens, limit, n, result, at) && !GoesAway(chunks, tokens, limit, n)
    ensures IsArranged(chunks, tokens, limit, n + 1, result + [chunks[n]], at + [n])
  {
    hide VisibleText, Gathered, GoesInto;
    GatheredStep(chunks, tokens, limit, n, n);
    forall i | 0 <= i < |at|
      ensures Gathered(chunks, tokens, limit, at[i], n + 1) == Gathered(chunks, tokens, limit, at[i], n)
    {
      GatheredStep(chunks, tokens, limit, at[i], n);
    }
  }

  lemma ArrangedByFolding(chunks: seq<Chunk>, tokens: string -> nat, limit: nat, n: nat, result: seq<Chunk>,
                          at: seq<int>, i: nat)
    requires n < |chunks| && IsArranged(chunks, tokens, limit, n, result, at) && GoesAway(chunks, tokens, limit, n)
    requires i < |at| && forall k :: GoesInto(chunks, tokens, limit, n, k) <==> k == at[i]
    ensures IsArranged(chunks, tokens, limit, n + 1, result[i := FoldInto(result[i], chunks[n])], at)
  {
    hide VisibleText, Gathered, GoesInto, GoesAway, FoldInto;
    FoldAddsTitleAndBody(result[i], chunks[n]);
    FoldKeepsHead(result[i], chunks[n]);
    forall j | 0 <= j < |at|
      ensures Gathered(chunks, tokens, limit, at[j], n + 1)
           == if j == i then VisibleText(FoldInto(result[i], chunks[n]).body)
              else Gathered(chunks, tokens, limit, at[j], n)
    {
      GatheredStep(chunks, tokens, limit, at[j], n);
    }
  }

  /** The rollup leaves every chunk that does not go away in its place and moves the others, in order and
      below their titles, to the end of their parents. */
  lemma {:induction false} RollUpArranges(chunks: seq<Chunk>, tokens: string -> nat, limit: nat, n: nat)
    returns (at: seq<int>)
    requires n <= |chunks| && NameTheirParents(chunks)
    ensures IsArranged(chunks, tokens, limit, n, RollUp(chunks[..n], tokens, limit).chunks, at)
    ensures HeadsAt(chunks, n, RollUp(chunks[..n], tokens, limit).lastH2, at)
  {
    hide IsArranged, HeadsAt, GoesAway, GoesInto, IsFolded, NamesItsParent, RollUp, FoldInto;
    if n == 0 {
      at := [];
      NothingArranged(chunks, tokens, limit);
    } else {
      var m, chunk := n - 1, chunks[n - 1];
      at := RollUpArranges(chunks, tokens, limit, m);
      var r := RollUp(chunks[..m], tokens, limit);
      assert chunks[..n] == chunks[..m] + [chunk];
      RollUpSnoc(chunks[..m], chunk, tokens, limit);
      FoldsExactlyIfItGoesAway(chunks, tokens, limit, m, r, at);
      HeadsStep(chunks, m, r.lastH2, at);
      if chunk.level != 2 && IsFolded(r, chunk, tokens, limit) {
        FoldedHasHead(r, chunk, tokens, limit);
        ArrangedSize(chunks, tokens, limit, m, r.chunks, at);
        ArrangedByFolding(chunks, tokens, limit, m, r.chunks, at, r.lastH2.value);
      } else {
        ArrangedSize(chunks, tokens, limit, m, r.chunks, at);
        ArrangedByAppending(chunks, tokens, limit, m, r.chunks, at);
        at := at + [m];
      }
    }
  }

  lemma NothingArranged(chunks: seq<Chunk>, tokens: string -> nat, limit: nat)
    ensures IsArranged(chunks, tokens, limit, 0, RollUp(chunks[..0], tokens, limit).chunks, [])
    ensures HeadsAt(chunks, 0, RollUp(chunks[..0], tokens, limit).lastH2, [])
  {
    NothingRolledUp(tokens, limit);
  }

  lemma ArrangedSize(chunks: seq<Chunk>, tokens: string -> nat, limit: nat, n: nat, result: seq<Chunk>, at: seq<int>)
    requires IsArranged(chunks, tokens, limit, n, result, at)
    ensures |at| == |result|
  {
  }

  lemma FoldedHasHead(r: Rollup, chunk: Chunk, tokens: string -> nat, limit: nat)
    requires PointsAtH2(r) && IsFolded(r, chunk, tokens, limit)
    ensures r.lastH2.Some? && r.lastH2.value < |r.chunks|
  {
  }

  lemma HeadsStep(chunks: seq<Chunk>, n: nat, lastH2: Maybe<nat>, at: seq<int>)
    requires n < |chunks| && HeadsAt(chunks, n, lastH2, at)
    ensures chunks[n].level == 2 ==> HeadsAt(chunks, n + 1, Some(|at|), at + [n])
    ensures chunks[n].level != 2 ==> HeadsAt(chunks, n + 1, lastH2, at) && HeadsAt(chunks, n + 1, lastH2, at + [n])
  {
  }

  // ----- parents

  lemma ParentOfNew(chunks: seq<Chunk>, chunk: Chunk, m: int, k: int)
    requires 0 <= m < |chunks|
    ensures IsParent(chunks + [chunk], k, m) <==> IsParent(chunks, k, m)
  {
    var longer := chunks + [chunk];
    assert forall i | 0 <= i < |chunks| :: longer[i] == chunks[i];
    if IsParent(longer, k, m) {
      forall i | k < i < m
        ensures chunks[i].level != 2
      {
        assert longer[i].level != 2;
      }
    }
  }

  lemma OlderNameTheirParents(chunks: seq<Chunk>, chunk: Chunk)
    requires NameTheirParents(chunks) && NamesItsParent(chunks + [chunk], |chunks|)
    ensures NameTheirParents(chunks + [chunk])
  {
    forall m | 0 <= m < |chunks|
      ensures NamesItsParent(chunks + [chunk], m)
    {
      hide IsParent;
      assert NamesItsParent(chunks, m);
      forall k
        ensures IsParent(chunks + [chunk], k, m) <==> IsParent(chunks, k, m)
      {
        ParentOfNew(chunks, chunk, m, k);
      }
    }
  }

  /** The title of the last level-2 chunk. */
  ghost predicate LastTitle(chunks: seq<Chunk>, title: Maybe<string>) {
    match title
    case None => forall k | 0 <= k < |chunks| :: chunks[k].level != 2
    case Some(t) =>
      exists k :: 0 <= k < |chunks| && chunks[k].level == 2 && chunks[k].title == t
                  && forall i | k < i < |chunks| :: chunks[i].level != 2
  }

  lemma LastTitleStep(chunks: seq<Chunk>, title: Maybe<string>, chunk: Chunk)
    requires LastTitle(chunks, title)
    ensures LastTitle(chunks + [chunk], if chunk.level == 2 then Some(chunk.title) else title)
    ensures (chunk.level == 3 ==> chunk.parentH2 == title) ==> NamesItsParent(chunks + [chunk], |chunks|)
  {
    var longer := chunks + [chunk];
    if chunk.level == 2 {
      assert longer[|chunks|].title == chunk.title;
    } else if title.Some? {
      var k :| 0 <= k < |chunks| && chunks[k].level == 2 && chunks[k].title == title.value
          && forall i | k < i < |chunks| :: chunks[i].level != 2;
      assert longer[k].title == title.value && IsParent(longer, k, |chunks|);
    }
  }

  /** Every level-3 chunk that is built names its parent. */
  lemma {:induction false} BuiltNameTheirParents(lower: string -> string, segments: seq<Segment>)
    requires forall s | s in segments :: 1 <= s.level <= 3
    ensures NameTheirParents(ChunksOf(lower, segments)) && LastTitle(ChunksOf(lower, segments), LastH2(segments))
  {
    hide ChunksOf, BodyText, NamesItsParent, LastTitle;
    if segments == [] {
      NoChunks(lower);
      NoTitles();
    } else {
      var front, last := segments[..|segments| - 1], segments[|segments| - 1];
      assert last in segments;
      var chunk := ChunkOf(lower, last, LastH2(front));
      BuiltNameTheirParents(lower, front);
      ChunksStep(lower, segments);
      LastTitleStep(ChunksOf(lower, front), LastH2(front), chunk);
      OlderNameTheirParents(ChunksOf(lower, front), chunk);
    }
  }

  lemma NoTitles()
    ensures LastTitle([], None)
  {
  }

  // ----- the whole chunker, without naming its passes

  /** The chunks stand, in order, for the segments of level 2 and those with a visible line, an untitled
      one under the title "Memory"; level-3 chunks carry their slug and the title of their parent. */
  ghost predicate IsBuilt(lower: string -> string, segments: seq<Segment>, chunks: seq<Chunk>, at: seq<int>) {
    && |at| == |chunks| && NameTheirParents(chunks)
    && (forall i | 0 <= i < |at| ::
          && 0 <= at[i] < |segments| && IsBuiltFrom(lower, segments[at[i]], chunks[i])
          && (segments[at[i]].level == 2 || Visible(segments[at[i]].body) != []))
    && (forall i, j | 0 <= i < j < |at| :: at[i] < at[j])
    && (forall k | 0 <= k < |segments| && (segments[k].level == 2 || Visible(segments[k].body) != []) :: k in at)
  }

  ghost predicate IsBuiltFrom(lower: string -> string, segment: Segment, chunk: Chunk) {
    && chunk.level == segment.level && VisibleText(chunk.body) == Visible(segment.body)
    && chunk.title == (if segment.level == 1 && segment.title == "" then "Memory" else segment.title)
    && (if segment.level == 3 then chunk.tagSlug == Slugify(lower, segment.title)
        else chunk.tagSlug == "" && chunk.parentH2 == None)
  }

  lemma ChunkIsBuilt(lower: string -> string, segment: Segment, h2: Maybe<string>)
    requires 1 <= segment.level <= 3 && Unbroken(segment.body)
    ensures IsBuiltFrom(lower, segment, ChunkOf(lower, segment, h2))
    ensures BodyText(segment) == "" <==> Visible(segment.body) == []
  {
    hide *;
    BodyTextKeeps(segment);
    EmptyTextShowsNothing();
    BodyTextIsStripped(segment);
    OnlyBlankShowsNothing(BodyText(segment));
    assert IsBuiltFrom(lower, segment, ChunkOf(lower, segment, h2)) by { ChunkHasHead(lower, segment, h2); }
  }

  lemma ChunkHasHead(lower: string -> string, segment: Segment, h2: Maybe<string>)
    requires 1 <= segment.level <= 3 && VisibleText(BodyText(segment)) == Visible(segment.body)
    ensures IsBuiltFrom(lower, segment, ChunkOf(lower, segment, h2))
  {
    hide BodyText, Visible, VisibleText, Slugify;
  }

  lemma BodyTextIsStripped(segment: Segment)
    ensures Strip(BodyText(segment)) == "" ==> BodyText(segment) == ""
  {
    hide JoinLines, DropLeadingBlank, DropTrailingBlank;
    var text := BodyText(segment);
    StripBlank(text);
    assert text != "" ==> !IsSpace(text[0]);
  }

  lemma OnlyBlankShowsNothing(s: string)
    ensures VisibleText(s) == [] <==> Strip(s) == ""
  {
    hide RStrip, LStrip, VisibleText, IsSpace, LineLength;
    var text := Strip(s);
    VisibleStrip(s);
    EmptyTextShowsNothing();
    if text != "" {
      FirstLine(text);
      StripBlank(text[..LineLength(text)]);
      assert text[..LineLength(text)][0] == text[0];
      assert !IsSpace(text[0]);
    }
  }

  lemma BuiltGrows(lower: string -> string, segments: seq<Segment>, s: Segment, chunks: seq<Chunk>, c: Chunk,
                   at: seq<int>)
    requires IsBuilt(lower, segments, chunks, at) && (s.level == 2 || Visible(s.body) != [])
    requires IsBuiltFrom(lower, s, c) && NameTheirParents(chunks + [c])
    ensures IsBuilt(lower, segments + [s], chunks + [c], at + [|segments|])
  {
    hide IsBuiltFrom, NameTheirParents, Visible;
    var longer := segments + [s];
    assert forall k | 0 <= k < |segments| :: longer[k] == segments[k];
  }

  lemma BuiltSkips(lower: string -> string, segments: seq<Segment>, s: Segment, chunks: seq<Chunk>, at: seq<int>)
    requires IsBuilt(lower, segments, chunks, at) && s.level != 2 && Visible(s.body) == []
    ensures IsBuilt(lower, segments + [s], chunks, at)
  {
    hide IsBuiltFrom, NameTheirParents, Visible;
    var longer := segments + [s];
    assert forall k | 0 <= k < |segments| :: longer[k] == segments[k];
  }

  lemma UnbrokenParts(front: seq<Segment>, last: Segment)
    requires Unbroken(AllLines(front + [last]))
    ensures Unbroken(AllLines(front)) && Unbroken(last.body)
  {
    AllLinesSnoc(front, last);
  }

  lemma BuiltStep(lower: string -> string, front: seq<Segment>, last: Segment, before: seq<int>) returns (at: seq<int>)
    requires IsBuilt(lower, front, ChunksOf(lower, front), before) && 1 <= last.level <= 3 && Unbroken(last.body)
    requires NameTheirParents(ChunksOf(lower, front + [last]))
    ensures IsBuilt(lower, front + [last], ChunksOf(lower, front + [last]), at)
  {
    hide *;
    var segments := front + [last];
    assert segments[..|segments| - 1] == front;
    var chunk := ChunkOf(lower, last, LastH2(front));
    ChunkIsBuilt(lower, last, LastH2(front));
    ChunksStep(lower, segments);
    if last.level == 2 || BodyText(last) != "" {
      BuiltGrows(lower, front, last, ChunksOf(lower, front), chunk, before);
      at := before + [|front|];
    } else {
      BuiltSkips(lower, front, last, ChunksOf(lower, front), before);
      at := before;
    }
  }

  lemma {:induction false} ChunksAreBuilt(lower: string -> string, segments: seq<Segment>) returns (at: seq<int>)
    requires Unbroken(AllLines(segments)) && forall s | s in segments :: 1 <= s.level <= 3
    ensures IsBuilt(lower, segments, ChunksOf(lower, segments), at)
  {
    hide *;
    if segments == [] {
      at := [];
      NothingBuilt(lower);
    } else {
      BuiltNameTheirParents(lower, segments);
      var front, last := segments[..|segments| - 1], segments[|segments| - 1];
      assert segments == front + [last];
      UnbrokenParts(front, last);
      assert last in segments;
      var before := ChunksAreBuilt(lower, front);
      at := BuiltStep(lower, front, last, before);
    }
  }

  lemma NothingBuilt(lower: string -> string)
    ensures IsBuilt(lower, [], ChunksOf(lower, []), [])
  {
  }

  /** The result: the built chunks that do not go into a parent, each with what goes into it, as far as
      they show anything. */
  ghost predicate IsResult(built: seq<Chunk>, tokens: string -> nat, limit: nat, chunks: seq<Chunk>, at: seq<int>) {
    && |at| == |chunks|
    && (forall i | 0 <= i < |at| ::
          && 0 <= at[i] < |built| && SameHead(chunks[i], built[at[i]]) && !GoesAway(built, tokens, limit, at[i])
          && VisibleText(chunks[i].body) == Gathered(built, tokens, limit, at[i], |built|) != [])
    && (forall i, j | 0 <= i < j < |at| :: at[i] < at[j])
    && (forall k | 0 <= k < |built| && !GoesAway(built, tokens, limit, k)
                   && Gathered(built, tokens, limit, k, |built|) != [] :: k in at)
  }

  /** The filtered chunks are those at the places `js`: the ones with a body, in order. */
  ghost predicate IsFilter(result: seq<Chunk>, filtered: seq<Chunk>, js: seq<int>) {
    && |js| == |filtered| && (forall i, j | 0 <= i < j < |js| :: js[i] < js[j])
    && (forall i | 0 <= i < |js| ::
          0 <= js[i] < |result| && filtered[i] == result[js[i]] && Strip(filtered[i].body) != "")
    && (forall j | 0 <= j < |result| && Strip(result[j].body) != "" :: j in js)
  }

  lemma FilterStep(result: seq<Chunk>, filtered: seq<Chunk>, js: seq<int>, c: Chunk)
    requires IsFilter(result, filtered, js)
    ensures Strip(c.body) != "" ==> IsFilter(result + [c], filtered + [c], js + [|result|])
    ensures Strip(c.body) == "" ==> IsFilter(result + [c], filtered, js)
  {
    hide Strip;
  }

  lemma {:induction false} FilterKeepsPlaces(result: seq<Chunk>) returns (js: seq<int>)
    ensures IsFilter(result, WithBody(result), js)
  {
    hide Strip, IsFilter;
    if result == [] {
      js := [];
      assert IsFilter([], [], []) by { NothingFiltered(); }
    } else {
      var front, last := result[..|result| - 1], result[|result| - 1];
      js := FilterKeepsPlaces(front);
      assert front + [last] == result;
      FilterStep(front, WithBody(front), js, last);
      if Strip(last.body) != "" {
        js := js + [|front|];
      } else {
        assert WithBody(result) == WithBody(front);
      }
    }
  }

  lemma NothingFiltered()
    ensures IsFilter([], [], [])
  {
  }

  lemma NoneIsFilteredOut(built: seq<Chunk>, tokens: string -> nat, limit: nat, result: seq<Chunk>,
                          places: seq<int>, filtered: seq<Chunk>, js: seq<int>, k: int)
    requires IsArranged(built, tokens, limit, |built|, result, places) && IsFilter(result, filtered, js)
    requires 0 <= k < |built| && !GoesAway(built, tokens, limit, k)
    requires Gathered(built, tokens, limit, k, |built|) != []
    ensures exists m :: 0 <= m < |js| && 0 <= js[m] < |places| && places[js[m]] == k
  {
    hide Gathered, GoesAway, VisibleText, Strip, SameHead;
    var i :| 0 <= i < |places| && places[i] == k;
    OnlyBlankShowsNothing(result[i].body);
    var m :| 0 <= m < |js| && js[m] == i;
  }

  lemma FilteredAt(built: seq<Chunk>, tokens: string -> nat, limit: nat, result: seq<Chunk>, places: seq<int>,
                   filtered: seq<Chunk>, js: seq<int>, i: int)
    requires IsArranged(built, tokens, limit, |built|, result, places) && IsFilter(result, filtered, js)
    requires 0 <= i < |js|
    ensures 0 <= js[i] < |places| && 0 <= places[js[i]] < |built|
    ensures SameHead(filtered[i], built[places[js[i]]]) && !GoesAway(built, tokens, limit, places[js[i]])
    ensures VisibleText(filtered[i].body) == Gathered(built, tokens, limit, places[js[i]], |built|) != []
    ensures forall j | i < j < |js| :: js[j] < |places| && places[js[i]] < places[js[j]]
  {
    hide Gathered, GoesAway, VisibleText, Strip, SameHead;
    OnlyBlankShowsNothing(filtered[i].body);
  }

  lemma FilteredIsResult(built: seq<Chunk>, tokens: string -> nat, limit: nat, result: seq<Chunk>, places: seq<int>,
                         filtered: seq<Chunk>, js: seq<int>) returns (at: seq<int>)
    requires IsArranged(built, tokens, limit, |built|, result, places) && IsFilter(result, filtered, js)
    ensures IsResult(built, tokens, limit, filtered, at)
  {
    hide Gathered, GoesAway, VisibleText, Strip, SameHead;
    assert |js| == |filtered|;
    at := [];
    hide IsArranged, IsFilter;
    for n := 0 to |js|
      invariant |at| == n
      invariant forall i | 0 <= i < n :: 0 <= js[i] < |places| && at[i] == places[js[i]]
    {
      FilteredAt(built, tokens, limit, result, places, filtered, js, n);
      at := at + [places[js[n]]];
    }
    forall i | 0 <= i < |at|
      ensures 0 <= at[i] < |built| && SameHead(filtered[i], built[at[i]]) && !GoesAway(built, tokens, limit, at[i])
      ensures VisibleText(filtered[i].body) == Gathered(built, tokens, limit, at[i], |built|) != []
      ensures forall j | i < j < |at| :: at[i] < at[j]
    {
      FilteredAt(built, tokens, limit, result, places, filtered, js, i);
    }
    forall k | 0 <= k < |built| && !GoesAway(built, tokens, limit, k)
               && Gathered(built, tokens, limit, k, |built|) != []
      ensures k in at
    {
      NoneIsFilteredOut(built, tokens, limit, result, places, filtered, js, k);
      var m :| 0 <= m < |js| && 0 <= js[m] < |places| && places[js[m]] == k;
      assert at[m] == k;
    }
  }

  /** Rollup and filter together. */
  lemma RollUpGivesResult(built: seq<Chunk>, tokens: string -> nat, limit: nat) returns (at: seq<int>)
    requires NameTheirParents(built)
    ensures IsResult(built, tokens, limit, WithBody(RollUp(built, tokens, limit).chunks), at)
  {
    hide *;
    assert built[..|built|] == built;
    var places := RollUpArranges(built, tokens, limit, |built|);
    var result := RollUp(built, tokens, limit).chunks;
    var js := FilterKeepsPlaces(result);
    at := FilteredIsResult(built, tokens, limit, result, places, WithBody(result), js);
  }

  // ----- what stands alone

  ghost predicate StandsAlone(c: Chunk, tokens: string -> nat, limit: nat) {
    c.level == 3 ==> tokens(c.body) >= limit || c.parentH2 == None
  }

  /** The rollup knows the parent that the build pass gave to the chunk: comparing the titles never
      decides anything. */
  lemma {:induction false} RollUpTracksParents(lower: string -> string, segments: seq<Segment>, tokens: string -> nat,
      limit: nat)
    requires forall s | s in segments :: 1 <= s.level <= 3
    ensures var r := RollUp(ChunksOf(lower, segments), tokens, limit);
            && (r.lastH2.Some? <==> LastH2(segments).Some?)
            && (r.lastH2.Some? ==> r.chunks[r.lastH2.value].title == LastH2(segments).value)
            && (forall c | c in r.chunks :: StandsAlone(c, tokens, limit))
            && (forall chunk: Chunk | chunk.level == 3 && chunk.parentH2 == LastH2(segments) ::
                  IsFolded(r, chunk, tokens, limit) <==> r.lastH2.Some? && tokens(chunk.body) < limit)
  {
    hide ChunksOf, RollUp, BodyText, FoldInto;
    if segments == [] {
      assert ChunksOf(lower, segments) == [] && RollUp([], tokens, limit) == Rollup([], None, []) by {
        NoChunks(lower);
        NothingRolledUp(tokens, limit);
      }
    } else {
      var front, last := segments[..|segments| - 1], segments[|segments| - 1];
      assert last in segments;
      RollUpTracksParents(lower, front, tokens, limit);
      var r, chunk := RollUp(ChunksOf(lower, front), tokens, limit), ChunkOf(lower, last, LastH2(front));
      ChunksStep(lower, segments);
      RollUpSnoc(ChunksOf(lower, front), chunk, tokens, limit);
      if chunk.level != 2 && IsFolded(r, chunk, tokens, limit) {
        FoldKeepsHead(r.chunks[r.lastH2.value], chunk);
      }
    }
  }

  lemma NothingRolledUp(tokens: string -> nat, limit: nat)
    ensures RollUp([], tokens, limit) == Rollup([], None, [])
  {
  }

  lemma FoldKeepsHead(parent: Chunk, chunk: Chunk)
    ensures SameHead(FoldInto(parent, chunk), parent)
  {
  }

  lemma RollUpSnoc(chunks: seq<Chunk>, chunk: Chunk, tokens: string -> nat, limit: nat)
    ensures var r := RollUp(chunks, tokens, limit);
            RollUp(chunks + [chunk], tokens, limit)
            == if chunk.level == 2 then Rollup(r.chunks + [chunk], Some(|r.chunks|), r.folded)
               else if IsFolded(r, chunk, tokens, limit) then
                 Rollup(r.chunks[r.lastH2.value := FoldInto(r.chunks[r.lastH2.value], chunk)], r.lastH2,
                     r.folded + [chunk])
               else r.(chunks := r.chunks + [chunk])
  {
    assert (chunks + [chunk])[..|chunks|] == chunks;
  }

  lemma {:induction false} FilterOnlyDrops(chunks: seq<Chunk>)
    ensures forall c | c in WithBody(chunks) :: c in chunks
  {
    if chunks != [] {
      FilterOnlyDrops(chunks[..|chunks| - 1]);
    }
  }

  /** Every level-3 chunk in the result reaches the threshold or has no level-2 heading before it. */
  lemma SmallChunksAreRolledUp(lower: string -> string, text: string, tokens: string -> nat, limit: nat)
    ensures forall c | c in WithBody(RollUp(ChunksOf(lower, SegmentsOf(ChompedLines(text))), tokens, limit).chunks) ::
              StandsAlone(c, tokens, limit)
  {
    hide RollUp, ChunksOf, SegmentsOf, WithBody, ChompedLines;
    var segments := SegmentsOf(ChompedLines(text));
    SegmentLevels(ChompedLines(text));
    RollUpTracksParents(lower, segments, tokens, limit);
    FilterOnlyDrops(RollUp(ChunksOf(lower, segments), tokens, limit).chunks);
  }

  /** The whole promise. The segments hold the headings and the other lines of the file as they follow
      one another; the built chunks stand for the segments that matter and show the body lines of the
      file in order; and the result holds the built chunks in order, each small level-3 one moved under
      its parent. */
  ghost predicate IsChunked(text: string, lower: string -> string, tokens: string -> nat, limit: nat,
                            segments: seq<Segment>, built: seq<Chunk>, chunks: seq<Chunk>) {
    && Items(segments) == [Head(Heading(1, ""))] + ItemsOf(ChompedLines(text))
    && (exists at :: IsBuilt(lower, segments, built, at))
    && ChunksVisible(built) == Visible(BodyLines(ChompedLines(text)))
    && (exists at :: IsResult(built, tokens, limit, chunks, at))
  }

  lemma ChunkingIsRight(text: string, lower: string -> string, tokens: string -> nat, limit: nat)
    ensures var segments := SegmentsOf(ChompedLines(text));
            var built := ChunksOf(lower, segments);
            IsChunked(text, lower, tokens, limit, segments, built, WithBody(RollUp(built, tokens, limit).chunks))
  {
    hide ChunksVisible, Visible, RollUp, ChunksOf, SegmentsOf, WithBody, ChompedLines, BodyLines, AllLines, Items,
        ItemsOf, IsBuilt, IsResult, Unbroken, NameTheirParents;
    var segments := SegmentsOf(ChompedLines(text));
    ChompedIsUnbroken(text);
    SegmentsKeepLines(ChompedLines(text));
    SegmentsAreUnbroken(ChompedLines(text));
    SegmentLevels(ChompedLines(text));
    BuiltChunksKeepOrder(lower, text);
    var b := ChunksAreBuilt(lower, segments);
    BuiltNameTheirParents(lower, segments);
    var r := RollUpGivesResult(ChunksOf(lower, segments), tokens, limit);
  }

  /** Over all chunks nothing visible is lost and nothing but title lines is added, all of it in order;
      small level-3 chunks stand alone only without a level-2 heading; and no chunk is empty. */
  method ChunkMemoryMd(text: string, lower: string -> string, tokens: string -> nat, rollupTokens: nat)
    returns (chunks: seq<Chunk>)
    ensures exists segments, built :: IsChunked(text, lower, tokens, rollupTokens, segments, built, chunks)
    ensures var r := RollUp(ChunksOf(lower, SegmentsOf(ChompedLines(text))), tokens, rollupTokens);
            && chunks == WithBody(r.chunks)
            && forall t ::
              Times(t, ChunksVisible(chunks))
              == Times(t, Visible(BodyLines(ChompedLines(text)))) + Times(t, TitleLines(r.folded))
    ensures forall c | c in chunks :: StandsAlone(c, tokens, rollupTokens) && Strip(c.body) != ""
  {
    hide SegmentsOf, ChunksOf, RollUp, WithBody, ChompedLines, Strip, ChunksVisible, Visible, BodyLines, TitleLines,
        Times, IsChunked;
    var lines := ChompedLines(text);
    var segments := ReadSegments(lines);
    SegmentLevels(lines);
    var built := BuildChunks(lower, segments);
    var rolledUp := RollUpChunks(built, tokens, rollupTokens);
    chunks := FilterEmpty(rolledUp);
    ChunkingIsRight(text, lower, tokens, rollupTokens);
    forall t
      ensures Times(t, ChunksVisible(chunks))
           == Times(t, Visible(BodyLines(lines))) + Times(t, TitleLines(RollUp(built, tokens, rollupTokens).folded))
    {
      ChunkingConservesContent(lower, text, tokens, rollupTokens, t);
    }
    SmallChunksAreRolledUp(lower, text, tokens, rollupTokens);
    FilteredHaveBodies(rolledUp);
  }

  lemma {:induction false} FilteredHaveBodies(chunks: seq<Chunk>)
    ensures forall c | c in WithBody(chunks) :: Strip(c.body) != ""
  {
    hide Strip;
    if chunks != [] {
      FilteredHaveBodies(chunks[..|chunks| - 1]);
    }
  }
}

/** Splitting a Markdown memory file into chunks (scripts/migrate-memory-md-to-qdrant.py, lines 117 to
    261). The token estimate and lower-casing are parameters. */
module MemoryChunker {
  import opened Options
  import opened Text
  import opened Slug

  datatype Heading = Heading(level: nat, title: string)

  datatype Segment = Segment(title: string, level: nat, body: seq<string>)

  datatype Chunk = Chunk(title: string, level: nat, body: string, parentH2: Maybe<string>, tagSlug: string)

  // ----- headings

  function Hashes(line: string): (n: nat)
    ensures n <= |line|
  {
    if line != "" && line[0] == '#' then 1 + Hashes(line[1..]) else 0
  }

  /** The match of `^(#+)\s+(.+?)\s*$`. Nothing but white space after the hashes is a heading too once
      there are two such characters: the pattern then takes the last one as the title. */
  function HeadingOf(line: string): Maybe<Heading> {
    var n := Hashes(line);
    var rest := line[n..];
    if n == 0 || rest == "" || !IsSpace(rest[0]) then None
    else if Strip(rest) != "" then Some(Heading(n, Strip(rest)))
    else if |rest| >= 2 then Some(Heading(n, rest[|rest| - 1..]))
    else None
  }

  /** A line that opens a segment; deeper headings stay in the body. */
  predicate OpensSegment(line: string) {
    HeadingOf(line).Some? && HeadingOf(line).value.level < 4
  }

  function Marks(n: nat): (s: string)
    ensures |s| == n && forall i | 0 <= i < n :: s[i] == '#'
  {
    seq(n, i => '#')
  }

  lemma MarksStep(n: nat, rest: string)
    ensures Marks(n + 1) + rest == ['#'] + (Marks(n) + rest) && Marks(0) + rest == rest
  {
  }

  lemma HashesStep(s: string)
    ensures Hashes(['#'] + s) == Hashes(s) + 1
  {
    assert (['#'] + s)[1..] == s;
  }

  lemma {:induction false} HashesAreCounted(n: nat, rest: string)
    requires rest == "" || rest[0] != '#'
    ensures Hashes(Marks(n) + rest) == n
  {
    if n == 0 {
      MarksStep(0, rest);
    } else {
      hide Marks, Hashes;
      HashesAreCounted(n - 1, rest);
      MarksStep(n - 1, rest);
      HashesStep(Marks(n - 1) + rest);
    }
  }

  lemma {:induction false} LineSplitsAtHashes(line: string)
    ensures line == Marks(Hashes(line)) + line[Hashes(line)..]
    ensures Hashes(line) < |line| ==> line[Hashes(line)] != '#'
  {
    if line != "" && line[0] == '#' {
      hide Marks, Hashes;
      var s := line[1..];
      assert line == ['#'] + s;
      LineSplitsAtHashes(s);
      HashesStep(s);
      MarksStep(Hashes(s), s[Hashes(s)..]);
      assert line[Hashes(line)..] == s[Hashes(s)..];
    } else {
      MarksStep(0, line);
    }
  }

  lemma OpensByHashes(n: nat, rest: string)
    requires rest == "" || rest[0] != '#'
    ensures OpensSegment(Marks(n) + rest) <==> 1 <= n <= 3 && |rest| >= 2 && IsSpace(rest[0])
  {
    hide Strip, IsSpace, Marks, Hashes;
    HashesAreCounted(n, rest);
    assert (Marks(n) + rest)[n..] == rest;
    StripBlank(rest);
  }

  /** A line opens a segment exactly if it starts with one to three hashes, a white-space character
      and one character more. */
  lemma OpensSegmentExactly(line: string)
    ensures OpensSegment(line) <==>
      exists n: nat, rest: string :: 1 <= n <= 3 && line == Marks(n) + rest && |rest| >= 2 && IsSpace(rest[0])
  {
    hide OpensSegment, Hashes, Marks;
    LineSplitsAtHashes(line);
    OpensByHashes(Hashes(line), line[Hashes(line)..]);
    if n: nat, rest: string :| 1 <= n <= 3 && line == Marks(n) + rest && |rest| >= 2 && IsSpace(rest[0]) {
      OpensByHashes(n, rest);
    }
  }

  ghost predicate IsTrimmed(title: string) {
    title != "" && !IsSpace(title[0]) && !IsSpace(title[|title| - 1])
  }

  lemma {:induction false} StripsTo(before: string, title: string, after: string)
    requires AllSpace(before) && AllSpace(after) && IsTrimmed(title)
    ensures Strip(before + title + after) == title
  {
    hide IsSpace;
    var s := before + title + after;
    var kept := before + title;
    assert kept <= s && kept[|kept| - 1] == title[|title| - 1];
    forall i | |kept| <= i < |s|
      ensures IsSpace(s[i])
    {
      assert s[i] == after[i - |kept|];
    }
    RStripUnique(s, kept);
    LStripsTo(before, title);
  }

  lemma {:induction false} LStripsTo(before: string, title: string)
    requires AllSpace(before) && IsTrimmed(title)
    ensures LStrip(before + title) == title
  {
    if before == "" {
      assert before + title == title;
    } else {
      assert (before + title)[1..] == before[1..] + title;
      LStripsTo(before[1..], title);
    }
  }

  /** A heading is read as it is written: its level is the number of hashes and its title is what
      stands between the white space. */
  lemma HeadingIsRead(n: nat, before: string, title: string, after: string)
    requires n >= 1 && before != "" && AllSpace(before) && AllSpace(after) && IsTrimmed(title)
    ensures HeadingOf(Marks(n) + before + title + after) == Some(Heading(n, title))
  {
    var rest := before + title + after;
    var line := Marks(n) + rest;
    assert Marks(n) + before + title + after == line;
    assert rest[0] == before[0] && IsSpace(before[0]);
    HashesAreCounted(n, rest);
    assert line[n..] == rest;
    StripsTo(before, title, after);
  }

  // ----- visible lines

  /** What a line shows: its text without the white space around it, or nothing for a blank line. */
  function One(line: string): seq<string> {
    if Strip(line) == "" then [] else [Strip(line)]
  }

  /** The visible lines, in order. */
  function Visible(lines: seq<string>): seq<string> {
    if lines == [] then [] else Visible(lines[..|lines| - 1]) + One(lines[|lines| - 1])
  }

  function VisibleText(text: string): seq<string> {
    Visible(RawLines(text))
  }

  lemma VisibleSnoc(lines: seq<string>, line: string)
    ensures Visible(lines + [line]) == Visible(lines) + One(line)
  {
    assert (lines + [line])[..|lines|] == lines;
  }

  lemma {:induction false} VisibleConcat(a: seq<string>, b: seq<string>)
    ensures Visible(a + b) == Visible(a) + Visible(b)
  {
    hide Strip;
    if b == [] {
      assert a + b == a;
    } else {
      var front, last := b[..|b| - 1], b[|b| - 1];
      assert a + b == (a + front) + [last] && b == front + [last];
      VisibleConcat(a, front);
      VisibleSnoc(a + front, last);
      VisibleSnoc(front, last);
    }
  }

  lemma VisibleOne(line: string)
    ensures Visible([line]) == One(line) && Visible([]) == []
  {
    assert [] + [line] == [line];
    VisibleSnoc([], line);
  }

  lemma RStripCons(c: char, s: string)
    requires IsSpace(c)
    ensures RStrip([c] + s) == if RStrip(s) == "" then "" else [c] + RStrip(s)
  {
    hide RStrip, IsSpace;
    var r, longer := RStrip(s), [c] + s;
    RStripDropsSpace(s);
    assert forall i | 0 < i < |longer| :: longer[i] == s[i - 1];
    if r == "" {
      RStripUnique(longer, "");
    } else {
      var kept := [c] + r;
      assert kept <= longer && kept[|kept| - 1] == r[|r| - 1];
      RStripUnique(longer, kept);
    }
  }

  lemma StripIgnoresSpace(c: char, s: string)
    requires IsSpace(c)
    ensures Strip([c] + s) == Strip(s) && Strip(s + [c]) == Strip(s)
  {
    hide RStrip, IsSpace;
    RStripCons(c, s);
    assert RStrip(s + [c]) == RStrip(s) by { RStripSnoc(c, s); }
    assert RStrip(s) != "" ==> ([c] + RStrip(s))[1..] == RStrip(s);
  }

  lemma RStripSnoc(c: char, s: string)
    requires IsSpace(c)
    ensures RStrip(s + [c]) == RStrip(s)
  {
    hide IsSpace;
    assert (s + [c])[..|s|] == s;
  }

  lemma FirstLine(s: string)
    requires s != ""
    ensures VisibleText(s) == One(s[..LineLength(s)]) + VisibleText(s[LineLength(s)..])
    ensures VisibleText("") == []
  {
    hide Strip, LineLength, Visible;
    RawLinesStep(s);
    VisibleConcat([s[..LineLength(s)]], RawLines(s[LineLength(s)..]));
    VisibleOne(s[..LineLength(s)]);
  }

  lemma LineLengthWhole(s: string)
    requires s != ""
    ensures LineLength(s) < |s| ==> s[LineLength(s) - 1] == '\n'
    ensures LineLength(s) == |s| ==> forall i | 0 <= i < |s| - 1 :: s[i] != '\n'
  {
    NoBreakBefore(s, 0);
  }

  lemma OneLineVisible(line: string)
    requires line != "" && forall i | 0 <= i < |line| - 1 :: line[i] != '\n'
    ensures VisibleText(line) == One(line)
  {
    RawLinesOne(line);
    VisibleOne(line);
  }

  /** White space at the end of a text shows nothing. */
  lemma {:induction false} SpaceAfter(s: string, c: char)
    requires IsSpace(c)
    ensures VisibleText(s + [c]) == VisibleText(s)
    decreases |s|
  {
    hide Strip, RawLines, LineLength, Visible, IsSpace, VisibleText;
    if s == "" {
      assert s + [c] == [c];
      OneLineVisible([c]);
      StripIgnoresSpace(c, "");
      FirstLine([c]);
      assert [c] == "" + [c];
      assert Strip("") == "" by { StripNothing(); }
    } else {
      var n := LineLength(s);
      LineLengthWhole(s);
      FirstLine(s);
      if s[n - 1] == '\n' {
        LineLengthInPrefix(s[..n], s[n..] + [c]);
        LineLengthInPrefix(s[..n], s[n..]);
        assert s[..n] + (s[n..] + [c]) == s + [c] && s[..n] + s[n..] == s;
        FirstLine(s + [c]);
        assert (s + [c])[..n] == s[..n] && (s + [c])[n..] == s[n..] + [c];
        SpaceAfter(s[n..], c);
      } else {
        assert n == |s| && s[..n] == s && s[n..] == "";
        OneLineVisible(s + [c]);
        StripIgnoresSpace(c, s);
      }
    }
  }

  lemma StripNothing()
    ensures Strip("") == ""
  {
  }

  lemma LineLengthCons(c: char, s: string)
    requires c != '\n' && s != ""
    ensures LineLength([c] + s) == LineLength(s) + 1
  {
    NoBreakBefore(s, 0);
    LineEndUnique([c] + s, 0, LineEnd(s, 0) + 1);
  }

  /** White space at the beginning of a text shows nothing. */
  lemma SpaceBefore(c: char, s: string)
    requires IsSpace(c)
    ensures VisibleText([c] + s) == VisibleText(s)
  {
    hide Strip, RawLines, LineLength, Visible, IsSpace, VisibleText;
    if s == "" {
      assert [c] + s == s + [c];
      SpaceAfter(s, c);
    } else if c == '\n' {
      LineBreakJoins("", s);
      assert "" + [c] + s == [c] + s;
      FirstLine(s);
    } else {
      LineLengthCons(c, s);
      var n := LineLength(s);
      FirstLine(s);
      FirstLine([c] + s);
      assert ([c] + s)[..n + 1] == [c] + s[..n] && ([c] + s)[n + 1..] == s[n..];
      StripIgnoresSpace(c, s[..n]);
    }
  }

  /** A line break keeps the lines of both sides apart. */
  lemma LineBreakJoins(a: string, b: string)
    ensures VisibleText(a + ['\n'] + b) == VisibleText(a) + VisibleText(b)
  {
    hide RawLines, Visible;
    RawLinesConcat(a + ['\n'], b);
    VisibleConcat(RawLines(a + ['\n']), RawLines(b));
    SpaceAfter(a, '\n');
  }

  lemma {:induction false} VisibleRStrip(s: string)
    ensures VisibleText(RStrip(s)) == VisibleText(s)
  {
    hide VisibleText, IsSpace;
    if s != "" && IsSpace(s[|s| - 1]) {
      var front := s[..|s| - 1];
      assert s == front + [s[|s| - 1]];
      SpaceAfter(front, s[|s| - 1]);
      VisibleRStrip(front);
    }
  }

  lemma {:induction false} VisibleLStrip(s: string)
    ensures VisibleText(LStrip(s)) == VisibleText(s)
  {
    hide VisibleText, IsSpace;
    if s != "" && IsSpace(s[0]) {
      assert s == [s[0]] + s[1..];
      SpaceBefore(s[0], s[1..]);
      VisibleLStrip(s[1..]);
    }
  }

  lemma VisibleStrip(s: string)
    ensures VisibleText(Strip(s)) == VisibleText(s)
  {
    VisibleRStrip(s);
    VisibleLStrip(RStrip(s));
  }

  ghost predicate Unbroken(lines: seq<string>) {
    forall l | l in lines :: '\n' !in l
  }

  lemma VisibleUnbroken(line: string)
    requires '\n' !in line
    ensures VisibleText(line) == One(line)
  {
    if line == "" {
      StripNothing();
    } else {
      OneLineVisible(line);
    }
  }

  lemma {:induction false} VisibleJoin(lines: seq<string>)
    requires Unbroken(lines)
    ensures VisibleText(JoinLines(lines)) == Visible(lines)
  {
    hide VisibleText, One;
    if lines == [] {
      FirstLine("a");
      VisibleOne("");
    } else {
      var front, last := lines[..|lines| - 1], lines[|lines| - 1];
      assert last in lines;
      VisibleUnbroken(last);
      assert lines == front + [last];
      VisibleSnoc(front, last);
      if front == [] {
        VisibleOne(last);
      } else {
        VisibleJoin(front);
        LineBreakJoins(JoinLines(front), last);
      }
    }
  }

  // ----- the three passes, as functions

  function AppendLine(segments: seq<Segment>, line: string): seq<Segment>
    requires segments != []
  {
    var n := |segments| - 1;
    segments[n := segments[n].(body := segments[n].body + [line])]
  }

  /** The segment pass: headings of the first three levels open a segment, every other line goes into
      the open one. */
  function SegmentsOf(lines: seq<string>): (r: seq<Segment>)
    ensures r != []
  {
    if lines == [] then [Segment("", 1, [])] else
      var segments, line := SegmentsOf(lines[..|lines| - 1]), lines[|lines| - 1];
      if OpensSegment(line)
      then segments + [Segment(HeadingOf(line).value.title, HeadingOf(line).value.level, [])]
      else AppendLine(segments, line)
  }

  function DropLeadingBlank(lines: seq<string>): seq<string> {
    if lines != [] && Strip(lines[0]) == "" then DropLeadingBlank(lines[1..]) else lines
  }

  function DropTrailingBlank(lines: seq<string>): seq<string> {
    if lines != [] && Strip(lines[|lines| - 1]) == "" then DropTrailingBlank(lines[..|lines| - 1]) else lines
  }

  function BodyText(segment: Segment): string {
    Strip(JoinLines(DropTrailingBlank(DropLeadingBlank(segment.body))))
  }

  /** The title of the last level-2 segment, the parent of what follows it. */
  function LastH2(segments: seq<Segment>): Maybe<string> {
    if segments == [] then None
    else if segments[|segments| - 1].level == 2 then Some(segments[|segments| - 1].title)
    else LastH2(segments[..|segments| - 1])
  }

  function ChunkOf(lower: string -> string, segment: Segment, h2: Maybe<string>): Chunk {
    if segment.level == 1 then
      Chunk(if segment.title != "" then segment.title else "Memory", 1, BodyText(segment), None, "")
    else if segment.level == 2 then Chunk(segment.title, 2, BodyText(segment), None, "")
    else Chunk(segment.title, 3, BodyText(segment), h2, Slugify(lower, segment.title))
  }

  /** The build pass: a chunk for every level-2 segment and for every other one with a body. */
  function ChunksOf(lower: string -> string, segments: seq<Segment>): seq<Chunk> {
    if segments == [] then [] else
      var front, last := segments[..|segments| - 1], segments[|segments| - 1];
      ChunksOf(lower, front)
      + (if last.level == 2 || BodyText(last) != "" then [ChunkOf(lower, last, LastH2(front))] else [])
  }

  /** Where the rollup stands: the chunks so far, the last level-2 one among them, and the chunks that
      were folded into a parent. */
  datatype Rollup = Rollup(chunks: seq<Chunk>, lastH2: Maybe<nat>, folded: seq<Chunk>)

  function FoldInto(parent: Chunk, chunk: Chunk): Chunk {
    parent.(body := parent.body + (if parent.body != "" then "\n\n" else "") + "### " + chunk.title + "\n" + chunk.body)
  }

  ghost predicate PointsAtH2(r: Rollup) {
    r.lastH2.Some? ==> r.lastH2.value < |r.chunks| && r.chunks[r.lastH2.value].level == 2
  }

  predicate IsFolded(r: Rollup, chunk: Chunk, tokens: string -> nat, limit: nat)
    requires r.lastH2.Some? ==> r.lastH2.value < |r.chunks|
  {
    && chunk.level == 3 && r.lastH2.Some? && chunk.parentH2 == Some(r.chunks[r.lastH2.value].title)
    && tokens(chunk.body) < limit
  }

  /** The rollup pass. */
  function RollUp(chunks: seq<Chunk>, tokens: string -> nat, limit: nat): (r: Rollup)
    ensures PointsAtH2(r)
  {
    if chunks == [] then Rollup([], None, []) else
      var r, chunk := RollUp(chunks[..|chunks| - 1], tokens, limit), chunks[|chunks| - 1];
      if chunk.level == 2 then Rollup(r.chunks + [chunk], Some(|r.chunks|), r.folded)
      else if IsFolded(r, chunk, tokens, limit) then
        var i := r.lastH2.value;
        Rollup(r.chunks[i := FoldInto(r.chunks[i], chunk)], r.lastH2, r.folded + [chunk])
      else r.(chunks := r.chunks + [chunk])
  }

  function WithBody(chunks: seq<Chunk>): seq<Chunk> {
    if chunks == [] then [] else
      var last := chunks[|chunks| - 1];
      WithBody(chunks[..|chunks| - 1]) + (if Strip(last.body) != "" then [last] else [])
  }

  function ChompedLines(text: string): (r: seq<string>)
    ensures |r| == |RawLines(text)|
  {
    seq(|RawLines(text)|, i requires 0 <= i < |RawLines(text)| => Chomp(RawLines(text)[i]))
  }

  // ----- the algorithm as the source writes it

  method ReadSegments(lines: seq<string>) returns (segments: seq<Segment>)
    ensures segments == SegmentsOf(lines)
  {
    hide HeadingOf;
    var current := Segment("", 1, []);
    segments := [current];
    assert lines[..0] == [] && lines[..|lines|] == lines;
    for i := 0 to |lines|
      invariant segments == SegmentsOf(lines[..i])
    {
      assert lines[..i + 1][..i] == lines[..i];
      var heading := HeadingOf(lines[i]);
      if heading.None? || heading.value.level >= 4 {
        segments := AppendLine(segments, lines[i]);
        continue;
      }
      segments := segments + [Segment(heading.value.title, heading.value.level, [])];
    }
  }

  method TrimmedBody(segment: Segment) returns (text: string)
    ensures text == BodyText(segment)
  {
    hide Strip;
    var body := segment.body;
    while body != [] && Strip(body[0]) == ""
      invariant DropLeadingBlank(body) == DropLeadingBlank(segment.body)
      decreases |body|
    {
      body := body[1..];
    }
    while body != [] && Strip(body[|body| - 1]) == ""
      invariant DropTrailingBlank(body) == DropTrailingBlank(DropLeadingBlank(segment.body))
      decreases |body|
    {
      body := body[..|body| - 1];
    }
    text := Strip(JoinLines(body));
  }

  method BuildChunks(lower: string -> string, segments: seq<Segment>) returns (chunks: seq<Chunk>)
    requires forall s | s in segments :: 1 <= s.level <= 3
    ensures chunks == ChunksOf(lower, segments)
  {
    hide BodyText, Slugify;
    chunks := [];
    var currentH2: Maybe<string> := None;
    assert segments[..|segments|] == segments;
    for i := 0 to |segments|
      invariant chunks == ChunksOf(lower, segments[..i]) && currentH2 == LastH2(segments[..i])
    {
      var segment := segments[i];
      assert segments[..i + 1][..i] == segments[..i] && segment in segments;
      var body := TrimmedBody(segment);
      if segment.level == 1 {
        if body == "" {
          continue;
        }
        chunks := chunks + [Chunk(if segment.title != "" then segment.title else "Memory", 1, body, None, "")];
      } else if segment.level == 2 {
        currentH2 := Some(segment.title);
        chunks := chunks + [Chunk(segment.title, 2, body, None, "")];
      } else {
        if body == "" {
          continue;
        }
        chunks := chunks + [Chunk(segment.title, 3, body, currentH2, Slugify(lower, segment.title))];
      }
    }
  }

  method RollUpChunks(chunks: seq<Chunk>, tokens: string -> nat, limit: nat) returns (rolledUp: seq<Chunk>)
    ensures rolledUp == RollUp(chunks, tokens, limit).chunks
  {
    rolledUp := [];
    var lastH2: Maybe<nat> := None;
    assert chunks[..|chunks|] == chunks;
    for i := 0 to |chunks|
      invariant rolledUp == RollUp(chunks[..i], tokens, limit).chunks
          && lastH2 == RollUp(chunks[..i], tokens, limit).lastH2
    {
      var chunk := chunks[i];
      assert chunks[..i + 1][..i] == chunks[..i];
      if chunk.level == 2 {
        rolledUp := rolledUp + [chunk];
        lastH2 := Some(|rolledUp| - 1);
        continue;
      }
      if chunk.level == 3 && lastH2.Some? && chunk.parentH2 == Some(rolledUp[lastH2.value].title)
         && tokens(chunk.body) < limit {
        rolledUp := rolledUp[lastH2.value := FoldInto(rolledUp[lastH2.value], chunk)];
        continue;
      }
      rolledUp := rolledUp + [chunk];
    }
  }

  lemma {:induction false} SegmentLevels(lines: seq<string>)
    ensures forall s | s in SegmentsOf(lines) :: 1 <= s.level <= 3
  {
    hide HeadingOf;
    if lines != [] {
      SegmentLevels(lines[..|lines| - 1]);
      HeadingLevel(lines[|lines| - 1]);
    }
  }

  lemma HeadingLevel(line: string)
    ensures HeadingOf(line).Some? ==> HeadingOf(line).value.level >= 1
  {
  }

  method FilterEmpty(all: seq<Chunk>) returns (chunks: seq<Chunk>)
    ensures chunks == WithBody(all)
  {
    hide Strip;
    chunks := [];
    assert all[..|all|] == all;
    for i := 0 to |all|
      invariant chunks == WithBody(all[..i])
    {
      assert all[..i + 1][..i] == all[..i];
      if Strip(all[i].body) != "" {
        chunks := chunks + [all[i]];
      }
    }
  }
}

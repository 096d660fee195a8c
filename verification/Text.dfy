/** The string operations of the Python source that the modules below share.
    A line ends at '\n' and nowhere else. */
module Text {

  /** `str.isspace` on one character, which is also what `\s` matches. */
  predicate IsSpace(c: char) {
    || c == ' ' || '\t' <= c <= '\r' || '\U{1c}' <= c <= '\U{1f}'
    || c == '\U{85}' || c == '\U{a0}' || c == '\U{1680}' || '\U{2000}' <= c <= '\U{200a}'
    || c == '\U{2028}' || c == '\U{2029}' || c == '\U{202f}' || c == '\U{205f}' || c == '\U{3000}'
  }

  predicate IsDigit(c: char) {
    '0' <= c <= '9'
  }

  ghost predicate AllSpace(s: string) {
    forall i | 0 <= i < |s| :: IsSpace(s[i])
  }

  /** `s.rstrip()` */
  function RStrip(s: string): (r: string)
    ensures |r| <= |s| && r == s[..|r|] && (r != "" ==> !IsSpace(r[|r| - 1]))
  {
    if s != "" && IsSpace(s[|s| - 1]) then RStrip(s[..|s| - 1]) else s
  }

  /** `s.lstrip()` */
  function LStrip(s: string): (r: string)
    ensures |r| <= |s| && r == s[|s| - |r|..] && (r != "" ==> !IsSpace(r[0]))
  {
    if s != "" && IsSpace(s[0]) then LStrip(s[1..]) else s
  }

  /** `s.strip()` */
  function Strip(s: string): string {
    LStrip(RStrip(s))
  }

  lemma RStripDropsSpace(s: string)
    ensures forall i | |RStrip(s)| <= i < |s| :: IsSpace(s[i])
  {
  }

  lemma LStripDropsSpace(s: string)
    ensures forall i | 0 <= i < |s| - |LStrip(s)| :: IsSpace(s[i])
  {
    if s != "" && IsSpace(s[0]) {
      LStripDropsSpace(s[1..]);
      assert forall i | 1 <= i < |s| :: s[i] == s[1..][i - 1];
    }
  }

  lemma StripBlank(s: string)
    ensures Strip(s) == "" <==> AllSpace(s)
  {
    RStripDropsSpace(s);
    LStripDropsSpace(RStrip(s));
  }

  /** Stripping a longer prefix of a text gives a longer prefix. */
  lemma RStripMonotone(s: string, c: nat, d: nat)
    requires c <= d <= |s|
    ensures RStrip(s[..c]) <= RStrip(s[..d])
  {
    var a, b := RStrip(s[..c]), RStrip(s[..d]);
    RStripDropsSpace(s[..d]);
    assert a != "" ==> s[..d][|a| - 1] == a[|a| - 1];
    assert |a| <= |b|;
  }

  lemma RStripUnique(s: string, r: string)
    requires r <= s && forall i | |r| <= i < |s| :: IsSpace(s[i])
    requires r != "" ==> !IsSpace(r[|r| - 1])
    ensures RStrip(s) == r
  {
    var q := RStrip(s);
    RStripDropsSpace(s);
    assert q != "" ==> s[|q| - 1] == q[|q| - 1];
    assert r != "" ==> s[|r| - 1] == r[|r| - 1];
    assert |q| == |r|;
  }

  // ----- lines

  /** The position of the first '\n' at or after p, or the end of the text. */
  function LineEnd(s: string, p: nat): (e: nat)
    requires p <= |s|
    ensures p <= e <= |s| && (e < |s| ==> s[e] == '\n')
    decreases |s| - p
  {
    if p == |s| || s[p] == '\n' then p else LineEnd(s, p + 1)
  }

  lemma NoBreakBefore(s: string, p: nat)
    requires p <= |s|
    ensures forall i | p <= i < LineEnd(s, p) :: s[i] != '\n'
    decreases |s| - p
  {
    if p == |s| || s[p] == '\n' {
    } else {
      NoBreakBefore(s, p + 1);
    }
  }

  /** A position where a line of the text begins. */
  predicate LineStart(s: string, p: nat) {
    p == 0 || (p <= |s| && s[p - 1] == '\n')
  }

  /** The length of the first line, its line break included. */
  function LineLength(s: string): (n: nat)
    requires s != ""
    ensures 1 <= n <= |s|
  {
    if LineEnd(s, 0) == |s| then |s| else LineEnd(s, 0) + 1
  }

  /** `s.splitlines(keepends=True)`; `s.splitlines()` is the same with every line chomped. */
  function RawLines(s: string): seq<string> {
    if s == "" then [] else [s[..LineLength(s)]] + RawLines(s[LineLength(s)..])
  }

  /** A raw line without its line break. */
  function Chomp(line: string): string {
    if line != "" && line[|line| - 1] == '\n' then line[..|line| - 1] else line
  }

  lemma LineEndUnique(s: string, p: nat, e: nat)
    requires p <= e <= |s| && (e < |s| ==> s[e] == '\n')
    requires forall i | p <= i < e :: s[i] != '\n'
    ensures LineEnd(s, p) == e
  {
    NoBreakBefore(s, p);
    var f := LineEnd(s, p);
    assert f <= e && e <= f;
  }

  lemma LineLengthInPrefix(a: string, b: string)
    requires a != "" && a[|a| - 1] == '\n'
    ensures LineLength(a + b) == LineLength(a)
  {
    NoBreakBefore(a, 0);
    LineEndUnique(a + b, 0, LineEnd(a, 0));
  }

  lemma RawLinesStep(s: string)
    requires s != ""
    ensures RawLines(s) == [s[..LineLength(s)]] + RawLines(s[LineLength(s)..])
    ensures LineLength(s) == |s| ==> RawLines(s[LineLength(s)..]) == []
  {
  }

  /** Splitting at a line start splits the list of lines. */
  lemma {:induction false} RawLinesConcat(a: string, b: string)
    requires a != "" && a[|a| - 1] == '\n'
    ensures RawLines(a + b) == RawLines(a) + RawLines(b)
    decreases |a|
  {
    hide *;
    LineLengthInPrefix(a, b);
    RawLinesStep(a);
    RawLinesStep(a + b);
    var n := LineLength(a);
    assert (a + b)[..n] == a[..n] && (a + b)[n..] == a[n..] + b;
    if n == |a| {
      assert (a + b)[n..] == b;
    } else {
      RawLinesConcat(a[n..], b);
    }
  }

  lemma RawLinesOne(line: string)
    requires line != "" && forall i | 0 <= i < |line| - 1 :: line[i] != '\n'
    ensures RawLines(line) == [line]
  {
    hide LineEnd, RawLines;
    LineEndUnique(line, 0, if line[|line| - 1] == '\n' then |line| - 1 else |line|);
    RawLinesStep(line);
    assert LineLength(line) == |line| && line[..|line|] == line && line[|line|..] == "";
  }

  /** The lines of the text up to a place in a line, or just past its line break, are the lines
      before that line, and what is left of the line. */
  lemma RawLinesUpTo(s: string, p: nat, c: nat)
    requires p <= |s| && LineStart(s, p) && p < c <= |s| && c <= LineEnd(s, p) + 1
    ensures RawLines(s[..c]) == RawLines(s[..p]) + [s[p..c]]
  {
    var a, line := s[..p], s[p..c];
    assert s[..c] == a + line;
    assert RawLines(line) == [line] by {
      NoBreakBefore(s, p);
      RawLinesOne(line);
    }
    if p > 0 {
      RawLinesConcat(a, line);
    }
  }

  /** No line starts strictly inside a line. */
  lemma NoStartsInside(s: string, p: nat)
    requires p <= |s|
    ensures forall q | p < q <= LineEnd(s, p) :: !LineStart(s, q)
  {
    NoBreakBefore(s, p);
  }

  /** `"\n".join(lines)` */
  function JoinLines(lines: seq<string>): string {
    if lines == [] then "" else if |lines| == 1 then lines[0]
    else JoinLines(lines[..|lines| - 1]) + ['\n'] + lines[|lines| - 1]
  }
}

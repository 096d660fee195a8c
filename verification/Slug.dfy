/** The tag of a chunk title (scripts/migrate-memory-md-to-qdrant.py, lines 101 to 111). Lower-casing is a
    parameter. */
module Slug {

  predicate IsSlugChar(c: char) {
    'a' <= c <= 'z' || '0' <= c <= '9'
  }

  /** What follows the run of other characters that a text begins with. */
  function SkipOthers(s: string): (r: string)
    ensures |r| <= |s| && (s != "" && !IsSlugChar(s[0]) ==> |r| < |s|) && (r != "" ==> IsSlugChar(r[0]))
  {
    if s != "" && !IsSlugChar(s[0]) then SkipOthers(s[1..]) else s
  }

  /** `_SLUG_RE.sub("-", s)` */
  function Collapse(s: string): string
    decreases |s|
  {
    if s == "" then ""
    else if IsSlugChar(s[0]) then [s[0]] + Collapse(s[1..])
    else "-" + Collapse(SkipOthers(s))
  }

  function LStripDash(s: string): string {
    if s != "" && s[0] == '-' then LStripDash(s[1..]) else s
  }

  function RStripDash(s: string): string {
    if s != "" && s[|s| - 1] == '-' then RStripDash(s[..|s| - 1]) else s
  }

  function Slugify(lower: string -> string, title: string): string {
    RStripDash(LStripDash(Collapse(lower(title))))
  }

  /** Words of slug characters with single dashes between them. */
  ghost predicate IsSlug(s: string) {
    HasSingleDashes(s) && (s != "" ==> s[0] != '-' && s[|s| - 1] != '-')
  }

  ghost predicate HasSingleDashes(s: string) {
    && (forall i | 0 <= i < |s| :: IsSlugChar(s[i]) || s[i] == '-')
    && (forall i | 0 < i < |s| && s[i - 1] == '-' :: s[i] != '-')
  }

  function Letters(s: string): string {
    if s == "" then "" else (if IsSlugChar(s[0]) then [s[0]] else "") + Letters(s[1..])
  }

  lemma {:induction false} LettersConcat(a: string, b: string)
    ensures Letters(a + b) == Letters(a) + Letters(b)
  {
    hide Letters;
    if a == "" {
      assert a + b == b;
      NoLetters();
    } else {
      assert a + b == [a[0]] + (a[1..] + b) && a == [a[0]] + a[1..];
      LettersCons(a[0], a[1..] + b);
      LettersCons(a[0], a[1..]);
      LettersConcat(a[1..], b);
    }
  }

  lemma LettersCons(c: char, rest: string)
    ensures Letters([c] + rest) == (if IsSlugChar(c) then [c] else "") + Letters(rest)
  {
    assert ([c] + rest)[1..] == rest;
  }

  lemma NoLetters()
    ensures Letters("") == ""
  {
  }

  lemma {:induction false} CollapseGivesSingleDashes(s: string)
    ensures HasSingleDashes(Collapse(s))
    ensures s != "" && IsSlugChar(s[0]) ==> Collapse(s) != "" && Collapse(s)[0] == s[0]
    decreases |s|
  {
    hide HasSingleDashes;
    if s == "" {
      NoDashes();
    } else if IsSlugChar(s[0]) {
      CollapseGivesSingleDashes(s[1..]);
      DashesCons(s[0], Collapse(s[1..]));
    } else {
      var rest := SkipOthers(s);
      CollapseGivesSingleDashes(rest);
      DashesCons('-', Collapse(rest));
    }
  }

  lemma NoDashes()
    ensures HasSingleDashes("")
  {
  }

  lemma DashesCons(c: char, rest: string)
    requires HasSingleDashes(rest) && (IsSlugChar(c) || (c == '-' && (rest != "" ==> rest[0] != '-')))
    ensures HasSingleDashes([c] + rest)
  {
    var s := [c] + rest;
    assert forall i | 0 < i < |s| :: s[i] == rest[i - 1];
  }

  lemma {:induction false} CollapseKeepsLetters(s: string)
    ensures Letters(Collapse(s)) == Letters(s)
    decreases |s|
  {
    hide Letters;
    if s != "" {
      assert s == [s[0]] + s[1..];
      if IsSlugChar(s[0]) {
        CollapseKeepsLetters(s[1..]);
        LettersCons(s[0], s[1..]);
        LettersCons(s[0], Collapse(s[1..]));
      } else {
        CollapseKeepsLetters(SkipOthers(s));
        SkippedHasNoLetters(s);
        LettersCons('-', Collapse(SkipOthers(s)));
      }
    }
  }

  lemma {:induction false} SkippedHasNoLetters(s: string)
    ensures Letters(SkipOthers(s)) == Letters(s)
  {
    if s != "" && !IsSlugChar(s[0]) {
      SkippedHasNoLetters(s[1..]);
    }
  }

  lemma StripGivesSlug(s: string)
    requires HasSingleDashes(s)
    ensures IsSlug(RStripDash(LStripDash(s))) && Letters(RStripDash(LStripDash(s))) == Letters(s)
  {
    hide Letters;
    var l := if s != "" && s[0] == '-' then s[1..] else s;
    assert LStripDash(s) == l;
    assert Letters(l) == Letters(s) by {
      if l != s {
        assert s == ['-'] + l;
        LettersCons('-', l);
      }
    }
    var r := if l != "" && l[|l| - 1] == '-' then l[..|l| - 1] else l;
    assert RStripDash(l) == r;
    if r != l {
      assert l == r + "-" && ['-'] + "" == "-";
      LettersConcat(r, "-");
      LettersCons('-', "");
      NoLetters();
    }
  }

  /** The slug is made of words with single dashes between them, and keeps every letter and digit. */
  lemma SlugifyGivesSlug(lower: string -> string, title: string)
    ensures IsSlug(Slugify(lower, title)) && Letters(Slugify(lower, title)) == Letters(lower(title))
  {
    hide RStripDash, LStripDash, Letters, IsSlug;
    CollapseGivesSingleDashes(lower(title));
    CollapseKeepsLetters(lower(title));
    StripGivesSlug(Collapse(lower(title)));
  }

  lemma {:induction false} SlugCollapsesToItself(s: string)
    requires HasSingleDashes(s) && (s != "" ==> s[|s| - 1] != '-')
    ensures Collapse(s) == s
  {
    if s != "" {
      var rest := s[1..];
      assert forall i | 0 <= i < |rest| :: rest[i] == s[i + 1];
      SlugCollapsesToItself(rest);
      assert s == [s[0]] + rest;
      if s[0] == '-' {
        assert SkipOthers(s) == SkipOthers(rest) == rest;
      }
    }
  }

  /** A slug is its own slug, and nothing else is. */
  lemma SlugifyIsIdentityExactlyOnSlugs(lower: string -> string, s: string)
    requires lower(s) == s
    ensures Slugify(lower, s) == s <==> IsSlug(s)
  {
    SlugifyGivesSlug(lower, s);
    if IsSlug(s) {
      SlugCollapsesToItself(s);
    }
  }

  // ----- the slug of a text, word by word

  ghost predicate IsWord(s: string) {
    s != "" && forall i | 0 <= i < |s| :: IsSlugChar(s[i])
  }

  ghost predicate IsGap(s: string) {
    forall i | 0 <= i < |s| :: !IsSlugChar(s[i])
  }

  /** Words with gaps after them, of which only the last may be empty. */
  ghost predicate AreWords(words: seq<string>, gaps: seq<string>) {
    && |words| == |gaps| && (forall i | 0 <= i < |words| :: IsWord(words[i]) && IsGap(gaps[i]))
    && forall i | 0 <= i < |words| - 1 :: gaps[i] != ""
  }

  function Written(words: seq<string>, gaps: seq<string>): string
    requires |words| == |gaps|
  {
    if words == [] then "" else words[0] + (gaps[0] + Written(words[1..], gaps[1..]))
  }

  function Dashed(words: seq<string>): string {
    if words == [] then "" else if |words| == 1 then words[0] else words[0] + ("-" + Dashed(words[1..]))
  }

  lemma {:induction false} CollapseWord(word: string, rest: string)
    requires forall i | 0 <= i < |word| :: IsSlugChar(word[i])
    ensures Collapse(word + rest) == word + Collapse(rest)
  {
    if word == "" {
      assert word + rest == rest;
    } else {
      CollapseWord(word[1..], rest);
      assert (word + rest)[1..] == word[1..] + rest;
      assert word == [word[0]] + word[1..];
    }
  }

  lemma {:induction false} SkipGap(gap: string, rest: string)
    requires IsGap(gap) && (rest != "" ==> IsSlugChar(rest[0]))
    ensures SkipOthers(gap + rest) == rest
  {
    if gap == "" {
      assert gap + rest == rest;
    } else {
      assert (gap + rest)[1..] == gap[1..] + rest;
      SkipGap(gap[1..], rest);
    }
  }

  lemma CollapseGap(gap: string, rest: string)
    requires IsGap(gap) && (rest != "" ==> IsSlugChar(rest[0]))
    ensures Collapse(gap + rest) == (if gap == "" then "" else "-") + Collapse(rest)
  {
    if gap == "" {
      assert gap + rest == rest && "" + Collapse(rest) == Collapse(rest);
    } else {
      SkipGap(gap, rest);
    }
  }

  lemma {:induction false} CollapseWords(words: seq<string>, gaps: seq<string>)
    requires AreWords(words, gaps)
    ensures Collapse(Written(words, gaps))
         == Dashed(words) + (if words != [] && gaps[|gaps| - 1] != "" then "-" else "")
    ensures Written(words, gaps) != "" ==> IsSlugChar(Written(words, gaps)[0])
  {
    hide IsSlugChar, Collapse;
    if words == [] {
      assert Collapse("") == "" by { NothingToCollapse(); }
    } else {
      var rest := Written(words[1..], gaps[1..]);
      CollapseWords(words[1..], gaps[1..]);
      CollapseGap(gaps[0], rest);
      CollapseWord(words[0], gaps[0] + rest);
      assert gaps != [gaps[0]] ==> gaps[1..][|gaps| - 2] == gaps[|gaps| - 1];
    }
  }

  lemma NothingToCollapse()
    ensures Collapse("") == ""
  {
  }

  lemma {:induction false} DashedEnds(words: seq<string>)
    requires words != [] && forall i | 0 <= i < |words| :: IsWord(words[i])
    ensures var d := Dashed(words); d != "" && IsSlugChar(d[0]) && IsSlugChar(d[|d| - 1])
  {
    if |words| > 1 {
      DashedEnds(words[1..]);
    }
  }

  lemma StripDashes(before: string, d: string, after: string)
    requires (before == "" || before == "-") && (after == "" || after == "-")
    requires d != "" && d[0] != '-' && d[|d| - 1] != '-'
    ensures RStripDash(LStripDash(before + (d + after))) == d
  {
    var s := before + (d + after);
    assert before == "" ==> s == d + after;
    assert before == "-" ==> s[1..] == d + after;
    assert LStripDash(s) == d + after;
    assert after == "-" ==> (d + after)[..|d|] == d;
    assert after == "" ==> d + after == d;
  }

  /** The slug of a title is its words, as they stand, with one dash between them. */
  lemma SlugJoinsTheWords(lower: string -> string, title: string, lead: string, words: seq<string>, gaps: seq<string>)
    requires AreWords(words, gaps) && IsGap(lead) && lower(title) == lead + Written(words, gaps)
    ensures Slugify(lower, title) == Dashed(words)
  {
    hide Written, Collapse, Dashed, LStripDash, RStripDash;
    var before := if lead == "" then "" else "-";
    var after := if words != [] && gaps[|gaps| - 1] != "" then "-" else "";
    CollapseWords(words, gaps);
    CollapseGap(lead, Written(words, gaps));
    if words != [] {
      DashedEnds(words);
      StripDashes(before, Dashed(words), after);
    } else {
      NoWords();
      OnlyADash(before);
      assert Collapse(lower(title)) == before + ("" + "");
    }
  }

  lemma NoWords()
    ensures Dashed([]) == ""
  {
  }

  lemma OnlyADash(s: string)
    requires s == "" || s == "-"
    ensures RStripDash(LStripDash(s + ("" + ""))) == ""
  {
    assert s + ("" + "") == s;
  }
}

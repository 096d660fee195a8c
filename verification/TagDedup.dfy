/** Cluster detection of scripts/tag-dedup.py (lines 147 to 300). Lower-casing is a parameter. */
module TagDedup {
  import opened Lexicographic
  import opened TagUnionFind

  const CONFIRMED_ACTION_TAG: string := "confirmed_action"

  datatype Cluster = Cluster(members: seq<string>, canonical: string, total: nat)

  // ----- the plural and singular rules

  predicate EndsWith(s: string, suffix: string) {
    |s| >= |suffix| && s[|s| - |suffix|..] == suffix
  }

  predicate IsSibilantPlural(tag: string) {
    || EndsWith(tag, "xes") || EndsWith(tag, "shes") || EndsWith(tag, "ches")
    || EndsWith(tag, "zzes") || EndsWith(tag, "sses")
  }

  function TrySingularForms(tag: string): seq<string> {
    if |tag| < 2 then [] else
      (if EndsWith(tag, "ies") && |tag| > 3 then [tag[..|tag| - 3] + "y"] else [])
      + (if IsSibilantPlural(tag) then [tag[..|tag| - 2]] else [])
      + (if EndsWith(tag, "s") && !EndsWith(tag, "ss") then [tag[..|tag| - 1]] else [])
  }

  /** The spelling rules: an ending `ies` for `y`, `es` after a hissing sound, and `s` after
      anything but another `s`. */
  ghost predicate IsPluralOf(plural: string, singular: string) {
    || (exists stem: string :: stem != "" && plural == stem + "ies" && singular == stem + "y")
    || (plural == singular + "es"
        && (EndsWith(singular, "x") || EndsWith(singular, "sh") || EndsWith(singular, "ch")
            || EndsWith(singular, "zz") || EndsWith(singular, "ss")))
    || (plural == singular + "s" && singular != "" && singular[|singular| - 1] != 's')
  }

  lemma EndsWithLonger(s: string, a: string, b: string)
    ensures EndsWith(s + b, a + b) <==> EndsWith(s, a)
  {
    if |s| >= |a| {
      assert (s + b)[|s| - |a|..] == s[|s| - |a|..] + b;
      if s[|s| - |a|..] + b == a + b {
        assert s[|s| - |a|..] == (a + b)[..|a|];
      }
    }
  }

  lemma EndsWithExactly(tag: string, stem: string, ending: string)
    ensures EndsWith(stem + ending, ending)
    ensures EndsWith(tag, ending) ==> tag == tag[..|tag| - |ending|] + ending
    ensures (stem + ending)[..|stem|] == stem
  {
  }

  lemma SibilantExactly(singular: string)
    ensures IsSibilantPlural(singular + "es")
       <==> EndsWith(singular, "x") || EndsWith(singular, "sh") || EndsWith(singular, "ch")
            || EndsWith(singular, "zz") || EndsWith(singular, "ss")
  {
    EndsWithLonger(singular, "x", "es");
    EndsWithLonger(singular, "sh", "es");
    EndsWithLonger(singular, "ch", "es");
    EndsWithLonger(singular, "zz", "es");
    EndsWithLonger(singular, "ss", "es");
    hide EndsWith;
    assert "x" + "es" == "xes" && "sh" + "es" == "shes" && "ch" + "es" == "ches";
    assert "zz" + "es" == "zzes" && "ss" + "es" == "sses";
  }

  lemma IesRule(plural: string, singular: string)
    ensures (EndsWith(plural, "ies") && |plural| > 3 && singular == plural[..|plural| - 3] + "y")
       <==> exists stem: string :: stem != "" && plural == stem + "ies" && singular == stem + "y"
  {
    if stem: string :| stem != "" && plural == stem + "ies" && singular == stem + "y" {
      EndsWithExactly(plural, stem, "ies");
    }
    EndsWithExactly(plural, "", "ies");
  }

  lemma EsRule(plural: string, singular: string)
    ensures (IsSibilantPlural(plural) && singular == plural[..|plural| - 2])
       <==> (plural == singular + "es"
             && (EndsWith(singular, "x") || EndsWith(singular, "sh") || EndsWith(singular, "ch")
                 || EndsWith(singular, "zz") || EndsWith(singular, "ss")))
  {
    if plural == singular + "es" {
      assert plural[..|plural| - 2] == singular;
      SibilantExactly(singular);
    } else if IsSibilantPlural(plural) {
      assert plural[|plural| - 2..] == "es" by { SibilantEndsInEs(plural); }
      assert plural == plural[..|plural| - 2] + "es";
    }
  }

  lemma SibilantEndsInEs(plural: string)
    requires IsSibilantPlural(plural)
    ensures plural[|plural| - 2..] == "es"
  {
    var n := |plural|;
    var ending := if EndsWith(plural, "xes") then "xes" else if EndsWith(plural, "shes") then "shes"
                  else if EndsWith(plural, "ches") then "ches" else if EndsWith(plural, "zzes") then "zzes" else "sses";
    assert plural[n - |ending|..] == ending;
    assert plural[n - 2..] == ending[|ending| - 2..];
  }

  lemma SRule(plural: string, singular: string)
    ensures (|plural| >= 2 && EndsWith(plural, "s") && !EndsWith(plural, "ss") && singular == plural[..|plural| - 1])
       <==> (plural == singular + "s" && singular != "" && singular[|singular| - 1] != 's')
  {
    if plural == singular + "s" {
      assert plural[..|plural| - 1] == singular;
      assert |plural| >= 2 ==> plural[|plural| - 2..] == [plural[|plural| - 2]] + "s";
    } else {
      EndsWithExactly(plural, "", "s");
    }
  }

  lemma FormsByRule(plural: string, singular: string)
    requires IsSibilantPlural(plural) || EndsWith(plural, "ies") ==> |plural| >= 2
    ensures singular in TrySingularForms(plural)
       <==> || (EndsWith(plural, "ies") && |plural| > 3 && singular == plural[..|plural| - 3] + "y")
            || (IsSibilantPlural(plural) && singular == plural[..|plural| - 2])
            || (|plural| >= 2 && EndsWith(plural, "s") && !EndsWith(plural, "ss") && singular == plural[..|plural| - 1])
  {
    hide EndsWith, IsSibilantPlural;
  }

  lemma SingularFormsExactly(plural: string, singular: string)
    ensures singular in TrySingularForms(plural) <==> IsPluralOf(plural, singular)
  {
    assert IsSibilantPlural(plural) || EndsWith(plural, "ies") ==> |plural| >= 2;
    hide EndsWith, IsSibilantPlural, TrySingularForms;
    FormsByRule(plural, singular);
    IesRule(plural, singular);
    EsRule(plural, singular);
    SRule(plural, singular);
  }

  // ----- variants in the terms of the rules

  /** The case-folded forms are the same, or one is a plural of the other. */
  ghost predicate AreVariants(lower: string -> string, v: string, w: string) {
    lower(v) == lower(w) || IsPluralOf(lower(v), lower(w)) || IsPluralOf(lower(w), lower(v))
  }

  /** The tags lead from one to the next by variants, with `confirmed_action` kept out. */
  ghost predicate IsChain(lower: string -> string, tags: set<string>, chain: seq<string>) {
    && (forall v | v in chain :: v in tags && lower(v) != CONFIRMED_ACTION_TAG)
    && forall i | 0 < i < |chain| :: AreVariants(lower, chain[i - 1], chain[i])
  }

  ghost predicate LinkedByChain(lower: string -> string, tags: set<string>, v: string, w: string) {
    exists chain :: |chain| > 0 && chain[0] == v && chain[|chain| - 1] == w && IsChain(lower, tags, chain)
  }

  predicate IsLink(plural: string, singular: string) {
    && singular in TrySingularForms(plural) && singular != plural
    && plural != CONFIRMED_ACTION_TAG && singular != CONFIRMED_ACTION_TAG
  }

  /** Every plural and singular pair among the case-folded tags, `confirmed_action` set apart. */
  ghost function Graph(folds: set<string>): set<(string, string)> {
    set p, s | p in folds && s in folds && IsLink(p, s) :: (p, s)
  }

  ghost function Folds(lower: string -> string, tags: set<string>): set<string> {
    set v | v in tags :: lower(v)
  }

  /** Two tags that the rules make variants of one another. */
  ghost predicate Related(lower: string -> string, tags: set<string>, v: string, w: string) {
    v in tags && w in tags && Connected(Graph(Folds(lower, tags)), lower(v), lower(w))
  }

  // ----- the canonical form

  function CountOf(count: map<string, nat>, tag: string): nat {
    if tag in count then count[tag] else 0
  }

  /** a has the smaller sort key, or the same one. */
  predicate Preferred(count: map<string, nat>, a: string, b: string) {
    CountOf(count, a) > CountOf(count, b) || (CountOf(count, a) == CountOf(count, b) && Leq(a, b))
  }

  function SelectCanonical(members: seq<string>, count: map<string, nat>): string
    requires members != []
  {
    var last := members[|members| - 1];
    if |members| == 1 then last else
      var best := SelectCanonical(members[..|members| - 1], count);
      if Preferred(count, best, last) then best else last
  }

  /** Most frequent wins, ties go to the lexicographically first. */
  lemma {:induction false} CanonicalIsBest(members: seq<string>, count: map<string, nat>)
    requires members != []
    ensures var c := SelectCanonical(members, count);
            c in members && forall m | m in members :: Preferred(count, c, m)
  {
    var last := members[|members| - 1];
    Reflexive(last);
    if |members| > 1 {
      var front := members[..|members| - 1];
      CanonicalIsBest(front, count);
      var best := SelectCanonical(front, count);
      assert forall m | m in members :: m in front || m == last;
      Total(best, last);
      forall m | m in front && !Preferred(count, best, last)
        ensures Preferred(count, last, m)
      {
        if CountOf(count, last) == CountOf(count, best) == CountOf(count, m) {
          Transitive(last, best, m);
        }
      }
    }
  }

  function SumCounts(members: seq<string>, count: map<string, nat>): nat {
    if members == [] then 0
    else SumCounts(members[..|members| - 1], count) + CountOf(count, members[|members| - 1])
  }

  /** A total is the sum of the single counts, in any split. */
  lemma {:induction false} TotalIsAdditive(a: seq<string>, b: seq<string>, count: map<string, nat>)
    ensures SumCounts(a + b, count) == SumCounts(a, count) + SumCounts(b, count)
    ensures forall tag :: SumCounts([tag], count) == CountOf(count, tag)
  {
    if b == [] {
      assert a + b == a;
    } else {
      var n := |b| - 1;
      assert (a + b)[..|a| + n] == a + b[..n];
      TotalIsAdditive(a, b[..n], count);
    }
    assert SumCounts([], count) == 0;
  }

  // ----- what the clusters are

  /** One whole class of related tags, with the best of them as its canonical form. */
  ghost predicate IsComponent(lower: string -> string, count: map<string, nat>, c: Cluster) {
    && |c.members| >= 2 && Distinct(c.members)
    && (forall v | v in c.members :: v in count && lower(v) != CONFIRMED_ACTION_TAG)
    && (forall v, w | v in c.members :: w in c.members <==> Related(lower, count.Keys, v, w))
    && c.canonical in c.members && (forall m | m in c.members :: Preferred(count, c.canonical, m))
    && c.total == SumCounts(c.members, count)
  }

  ghost predicate InSome(clusters: seq<Cluster>, v: string) {
    exists i :: 0 <= i < |clusters| && v in clusters[i].members
  }

  ghost predicate Apart(clusters: seq<Cluster>) {
    forall i, j, v | 0 <= i < j < |clusters| && v in clusters[i].members :: v !in clusters[j].members
  }

  /** Exactly the classes with more than one tag, that of `confirmed_action` left out. */
  ghost predicate AreClusters(lower: string -> string, count: map<string, nat>, clusters: seq<Cluster>) {
    && (forall c | c in clusters :: IsComponent(lower, count, c))
    && Apart(clusters)
    && (forall v, w | v != w && lower(v) != CONFIRMED_ACTION_TAG && Related(lower, count.Keys, v, w) ::
        InSome(clusters, v))
  }

  lemma ConfirmedActionHasNoLink(folds: set<string>, c: string)
    ensures !Adjacent(Graph(folds), CONFIRMED_ACTION_TAG, c)
  {
    hide TrySingularForms;
    assert !IsLink(CONFIRMED_ACTION_TAG, c) && !IsLink(c, CONFIRMED_ACTION_TAG);
  }

  /** No link touches `confirmed_action`, so nothing but its case variants is related to it. */
  lemma ConfirmedActionStaysApart(folds: set<string>, b: string)
    requires Connected(Graph(folds), CONFIRMED_ACTION_TAG, b)
    ensures b == CONFIRMED_ACTION_TAG
  {
    hide Graph;
    var n: nat :| Walk(Graph(folds), CONFIRMED_ACTION_TAG, b, n);
    if n > 0 {
      var c :| Adjacent(Graph(folds), CONFIRMED_ACTION_TAG, c) && Walk(Graph(folds), c, b, n - 1);
      ConfirmedActionHasNoLink(folds, c);
      assert false;
    }
  }

  // ----- the classes in the terms of the rules

  lemma StepIsRelated(lower: string -> string, tags: set<string>, v: string, w: string)
    requires v in tags && w in tags && AreVariants(lower, v, w)
    requires lower(v) != CONFIRMED_ACTION_TAG && lower(w) != CONFIRMED_ACTION_TAG
    ensures Related(lower, tags, v, w)
  {
    hide IsPluralOf, TrySingularForms, Connected;
    var f, g, links := lower(v), lower(w), Graph(Folds(lower, tags));
    SingularFormsExactly(f, g);
    SingularFormsExactly(g, f);
    assert f in Folds(lower, tags) && g in Folds(lower, tags);
    if f == g {
      ConnectedReflexive(links, f);
    } else {
      assert Adjacent(links, f, g);
      ConnectedByLink(links, f, g);
    }
  }

  lemma {:induction false} ChainIsRelated(lower: string -> string, tags: set<string>, chain: seq<string>)
    requires |chain| > 0 && IsChain(lower, tags, chain)
    ensures Related(lower, tags, chain[0], chain[|chain| - 1])
  {
    hide AreVariants, Graph, Folds, Connected;
    var links := Graph(Folds(lower, tags));
    var n := |chain| - 1;
    assert chain[n] in chain;
    if n == 0 {
      ConnectedReflexive(links, lower(chain[0]));
    } else {
      assert chain[n - 1] in chain;
      ChainIsRelated(lower, tags, chain[..n]);
      StepIsRelated(lower, tags, chain[n - 1], chain[n]);
      ConnectedTransitive(links, lower(chain[0]), lower(chain[n - 1]), lower(chain[n]));
    }
  }

  lemma LinkIsVariant(lower: string -> string, tags: set<string>, v: string, f: string) returns (u: string)
    requires v in tags && Adjacent(Graph(Folds(lower, tags)), lower(v), f)
    ensures u in tags && lower(u) == f && AreVariants(lower, v, u)
    ensures lower(v) != CONFIRMED_ACTION_TAG && lower(u) != CONFIRMED_ACTION_TAG
  {
    hide IsPluralOf, TrySingularForms;
    u :| u in tags && lower(u) == f;
    SingularFormsExactly(lower(v), f);
    SingularFormsExactly(f, lower(v));
  }

  lemma ChainGrows(lower: string -> string, tags: set<string>, v: string, u: string, w: string)
    requires v in tags && lower(v) != CONFIRMED_ACTION_TAG && AreVariants(lower, v, u)
    requires LinkedByChain(lower, tags, u, w)
    ensures LinkedByChain(lower, tags, v, w)
  {
    var chain :| |chain| > 0 && chain[0] == u && chain[|chain| - 1] == w && IsChain(lower, tags, chain);
    hide AreVariants, IsChain;
    ChainCons(lower, tags, v, chain);
    var longer := [v] + chain;
    assert longer[0] == v && longer[|longer| - 1] == w;
  }

  lemma ChainCons(lower: string -> string, tags: set<string>, v: string, chain: seq<string>)
    requires v in tags && lower(v) != CONFIRMED_ACTION_TAG
    requires chain != [] && IsChain(lower, tags, chain) && AreVariants(lower, v, chain[0])
    ensures IsChain(lower, tags, [v] + chain)
  {
    hide AreVariants;
    var longer := [v] + chain;
    assert forall x :: x in longer <==> x == v || x in chain;
    forall i | 0 < i < |longer|
      ensures AreVariants(lower, longer[i - 1], longer[i])
    {
      if i > 1 {
        assert longer[i - 1] == chain[i - 2] && longer[i] == chain[i - 1];
      }
    }
  }

  lemma {:induction false} WalkIsChain(lower: string -> string, tags: set<string>, v: string, w: string, n: nat)
    requires v in tags && w in tags && lower(v) != CONFIRMED_ACTION_TAG
    requires Walk(Graph(Folds(lower, tags)), lower(v), lower(w), n)
    ensures LinkedByChain(lower, tags, v, w)
    decreases n
  {
    hide AreVariants, Graph, Folds;
    var links := Graph(Folds(lower, tags));
    if n == 0 {
      SameFoldIsChain(lower, tags, v, w);
    } else {
      hide LinkedByChain;
      var f :| Adjacent(links, lower(v), f) && Walk(links, f, lower(w), n - 1);
      var u := LinkIsVariant(lower, tags, v, f);
      WalkIsChain(lower, tags, u, w, n - 1);
      ChainGrows(lower, tags, v, u, w);
    }
  }

  lemma SameFoldIsChain(lower: string -> string, tags: set<string>, v: string, w: string)
    requires v in tags && w in tags && lower(v) == lower(w) != CONFIRMED_ACTION_TAG
    ensures LinkedByChain(lower, tags, v, w)
  {
    assert IsChain(lower, tags, [v, w]);
  }

  /** Apart from `confirmed_action`, tags are related exactly if variants lead from one to the other. */
  lemma RelatedExactlyByChains(lower: string -> string, tags: set<string>, v: string, w: string)
    requires lower(v) != CONFIRMED_ACTION_TAG
    ensures Related(lower, tags, v, w) <==> LinkedByChain(lower, tags, v, w)
  {
    hide IsChain, Walk, Graph, Folds;
    if Related(lower, tags, v, w) {
      var n: nat :| Walk(Graph(Folds(lower, tags)), lower(v), lower(w), n);
      WalkIsChain(lower, tags, v, w, n);
    }
    if chain :| |chain| > 0 && chain[0] == v && chain[|chain| - 1] == w && IsChain(lower, tags, chain) {
      ChainIsRelated(lower, tags, chain);
    }
  }

  // ----- the algorithm

  /** The tags whose case-folded form is f. */
  ghost predicate IsGroup(lower: string -> string, tags: seq<string>, f: string, group: seq<string>) {
    group != [] && Distinct(group) && forall v :: v in group <==> v in tags && lower(v) == f
  }

  /** The case-fold groups, in the order in which they first appear. */
  ghost predicate AreGroups(lower: string -> string, tags: seq<string>, folds: seq<string>,
                            byFold: map<string, seq<string>>) {
    && Distinct(folds) && (forall f :: f in folds <==> f in byFold)
    && (forall v | v in tags :: lower(v) in byFold)
    && (forall f | f in byFold :: IsGroup(lower, tags, f, byFold[f]))
  }

  method GroupByFold(tags: seq<string>, lower: string -> string)
    returns (folds: seq<string>, byFold: map<string, seq<string>>)
    requires Distinct(tags)
    ensures AreGroups(lower, tags, folds, byFold)
  {
    folds, byFold := [], map[];
    for i := 0 to |tags|
      invariant AreGroups(lower, tags[..i], folds, byFold)
    {
      var v := tags[i];
      var f := lower(v);
      assert tags[..i + 1] == tags[..i] + [v] && v !in tags[..i];
      if f in byFold {
        byFold := byFold[f := byFold[f] + [v]];
      } else {
        folds := folds + [f];
        byFold := byFold[f := [v]];
      }
      assert forall g | g in byFold :: IsGroup(lower, tags[..i + 1], g, byFold[g]);
      hide IsGroup;
    }
    assert tags[..|tags|] == tags;
  }

  /** The links of one key, as far as its first n candidates reach. */
  ghost function LinksOf(folds: set<string>, plural: string, n: nat): set<(string, string)>
    requires n <= |TrySingularForms(plural)|
  {
    set s | s in TrySingularForms(plural)[..n] && plural in folds && s in folds && IsLink(plural, s) :: (plural, s)
  }

  ghost function LinksOfAll(folds: set<string>, plurals: seq<string>): set<(string, string)> {
    set p, s | p in plurals && s in folds && p in folds && IsLink(p, s) :: (p, s)
  }

  lemma OneMorePlural(folds: set<string>, plurals: seq<string>, i: nat)
    requires i < |plurals|
    ensures LinksOfAll(folds, plurals[..i]) + LinksOf(folds, plurals[i], |TrySingularForms(plurals[i])|)
         == LinksOfAll(folds, plurals[..i + 1])
    ensures LinksOf(folds, plurals[i], 0) == {}
  {
    hide TrySingularForms;
    var forms := TrySingularForms(plurals[i]);
    assert forms[..|forms|] == forms && plurals[..i + 1] == plurals[..i] + [plurals[i]];
  }

  lemma AllPlurals(folds: set<string>, plurals: seq<string>)
    requires forall f :: f in plurals <==> f in folds
    ensures LinksOfAll(folds, plurals) == Graph(folds) && LinksOfAll(folds, []) == {}
  {
  }

  /** Links one key to those of its singular forms that are keys themselves. */
  method LinkFormsOf(plural: string, folds: seq<string>, uf: UnionFind<string>, ghost done: set<(string, string)>)
    requires uf.Valid() && uf.parent.Keys == (set f | f in folds) && plural in folds
    requires RootsAreComponents(uf.root, done)
    modifies uf
    ensures uf.Valid() && uf.parent.Keys == old(uf.parent.Keys)
    ensures RootsAreComponents(uf.root, done + LinksOf(uf.parent.Keys, plural, |TrySingularForms(plural)|))
  {
    hide TrySingularForms, RootsAreComponents, Forest;
    ghost var keys := uf.parent.Keys;
    var forms := TrySingularForms(plural);
    assert done + LinksOf(keys, plural, 0) == done;
    hide LinksOf;
    for j := 0 to |forms|
      invariant uf.Valid() && uf.parent.Keys == keys
      invariant RootsAreComponents(uf.root, done + LinksOf(keys, plural, j))
    {
      var singular := forms[j];
      OneMoreForm(keys, plural, j, done);
      if singular == plural {
        continue;
      }
      if singular !in folds {
        continue;
      }
      if plural == CONFIRMED_ACTION_TAG || singular == CONFIRMED_ACTION_TAG {
        continue;
      }
      KeysHaveRoots(uf, plural);
      KeysHaveRoots(uf, singular);
      MergeAddsLink(uf.root, done + LinksOf(keys, plural, j), plural, singular);
      uf.Union(plural, singular);
    }
  }

  lemma KeysHaveRoots(uf: UnionFind<string>, key: string)
    requires uf.Valid() && key in uf.parent
    ensures key in uf.root
  {
  }

  method LinkForms(folds: seq<string>, uf: UnionFind<string>)
    requires Distinct(folds)
    requires uf.Valid() && uf.parent.Keys == (set f | f in folds)
    requires RootsAreComponents(uf.root, {})
    modifies uf
    ensures uf.Valid() && uf.parent.Keys == old(uf.parent.Keys)
    ensures RootsAreComponents(uf.root, Graph(uf.parent.Keys))
  {
    hide RootsAreComponents, Forest, LinksOf, LinksOfAll, Graph, TrySingularForms;
    ghost var keys := uf.parent.Keys;
    var plurals := Sorted(folds);
    AllPlurals(keys, plurals);
    assert plurals[..0] == [] && plurals[..|plurals|] == plurals;
    for i := 0 to |plurals|
      invariant uf.Valid() && uf.parent.Keys == keys
      invariant RootsAreComponents(uf.root, LinksOfAll(keys, plurals[..i]))
    {
      OneMorePlural(keys, plurals, i);
      assert plurals[i] in plurals;
      LinkFormsOf(plurals[i], folds, uf, LinksOfAll(keys, plurals[..i]));
    }
  }

  lemma OneMoreForm(folds: set<string>, plural: string, j: nat, done: set<(string, string)>)
    requires j < |TrySingularForms(plural)|
    ensures var singular := TrySingularForms(plural)[j];
            done + LinksOf(folds, plural, j + 1)
            == if plural in folds && singular in folds && IsLink(plural, singular)
               then done + LinksOf(folds, plural, j) + {(plural, singular)}
               else done + LinksOf(folds, plural, j)
  {
    hide TrySingularForms;
    var forms := TrySingularForms(plural);
    assert forms[..j + 1] == forms[..j] + [forms[j]];
  }

  // ----- from roots to clusters

  /** The tags whose case-folded form is among the first keys and has root r. */
  ghost predicate IsClass(lower: string -> string, tags: seq<string>, root: map<string, string>, done: seq<string>,
                          r: string, members: seq<string>) {
    && members != [] && Distinct(members)
    && forall v :: v in members <==> v in tags && lower(v) in done && lower(v) in root && root[lower(v)] == r
  }

  ghost predicate AreClasses(lower: string -> string, tags: seq<string>, root: map<string, string>, done: seq<string>,
                             roots: seq<string>, comp: map<string, seq<string>>) {
    && Distinct(roots) && (forall r :: r in roots <==> r in comp)
    && (forall f | f in done :: f in root && root[f] in comp)
    && (forall r | r in comp :: IsClass(lower, tags, root, done, r, comp[r]))
  }

  lemma ClassGrows(lower: string -> string, tags: seq<string>, root: map<string, string>, done: seq<string>, f: string,
                   group: seq<string>, r: string, members: seq<string>)
    requires f !in done && f in root && IsGroup(lower, tags, f, group) && IsClass(lower, tags, root, done, r, members)
    ensures IsClass(lower, tags, root, done + [f], r, if root[f] == r then members + group else members)
  {
    assert forall i, j | 0 <= i < |members| && 0 <= j < |group| :: members[i] in members && group[j] in group;
    assert forall v | v in members :: v !in group;
    var grown := if root[f] == r then members + group else members;
    assert Distinct(grown);
    assert forall v :: v in members + group <==> v in members || v in group;
    forall v
      ensures v in grown <==> v in tags && lower(v) in done + [f] && lower(v) in root && root[lower(v)] == r
    {
    }
  }

  lemma ClassStarts(lower: string -> string, tags: seq<string>, root: map<string, string>, done: seq<string>, f: string,
                    group: seq<string>)
    requires f in root && IsGroup(lower, tags, f, group) && forall g | g in done :: g in root && root[g] != root[f]
    ensures IsClass(lower, tags, root, done + [f], root[f], group)
  {
  }

  method Components(ghost lower: string -> string, ghost tags: seq<string>, folds: seq<string>,
                    byFold: map<string, seq<string>>, uf: UnionFind<string>)
    returns (roots: seq<string>, comp: map<string, seq<string>>)
    requires AreGroups(lower, tags, folds, byFold)
    requires uf.Valid() && uf.parent.Keys == (set f | f in folds)
    modifies uf`parent
    ensures uf.Valid() && AreClasses(lower, tags, uf.root, folds, roots, comp)
  {
    hide IsGroup, IsClass, Forest;
    roots, comp := [], map[];
    for i := 0 to |folds|
      invariant uf.Valid() && uf.parent.Keys == set f | f in folds
      invariant AreClasses(lower, tags, uf.root, folds[..i], roots, comp)
    {
      var f := folds[i];
      assert f in folds && f !in folds[..i] && folds[..i + 1] == folds[..i] + [f];
      KeysHaveRoots(uf, f);
      var r := uf.Find(f);
      ghost var before := comp;
      if r in comp {
        comp := comp[r := comp[r] + byFold[f]];
      } else {
        ClassStarts(lower, tags, uf.root, folds[..i], f, byFold[f]);
        roots := roots + [r];
        comp := comp[r := byFold[f]];
      }
      forall q | q in comp
        ensures IsClass(lower, tags, uf.root, folds[..i + 1], q, comp[q])
      {
        if q in before {
          ClassGrows(lower, tags, uf.root, folds[..i], f, byFold[f], q, before[q]);
        }
      }
    }
    assert folds[..|folds|] == folds;
  }

  predicate TouchesConfirmed(lower: string -> string, members: seq<string>) {
    exists m | m in members :: lower(m) == CONFIRMED_ACTION_TAG
  }

  function MakeCluster(members: seq<string>, count: map<string, nat>): Cluster
    requires members != []
  {
    Cluster(members, SelectCanonical(members, count), SumCounts(members, count))
  }

  /** A class is what the links connect. */
  lemma ClassIsComponent(lower: string -> string, count: map<string, nat>, tags: seq<string>, folds: seq<string>,
                         root: map<string, string>, r: string, members: seq<string>)
    requires (forall v :: v in tags <==> v in count) && (forall v | v in tags :: lower(v) in folds)
    requires root.Keys == Folds(lower, count.Keys) && RootsAreComponents(root, Graph(root.Keys))
    requires IsClass(lower, tags, root, folds, r, members)
    ensures forall v, w | v in members :: w in members <==> Related(lower, count.Keys, v, w)
  {
    hide Graph, Connected, RootsAreComponents;
    forall v, w | v in members
      ensures w in members <==> Related(lower, count.Keys, v, w)
    {
      SameRootIffConnected(root, Graph(root.Keys), lower(v), lower(w));
    }
  }

  method EmitClusters(ghost tags: seq<string>, ghost folds: seq<string>, ghost root: map<string, string>,
                      roots: seq<string>, comp: map<string, seq<string>>, lower: string -> string,
                      count: map<string, nat>)
    returns (clusters: seq<Cluster>)
    requires (forall v :: v in tags <==> v in count) && (forall v | v in tags :: lower(v) in folds)
    requires root.Keys == Folds(lower, count.Keys) && RootsAreComponents(root, Graph(root.Keys))
    requires AreClasses(lower, tags, root, folds, roots, comp)
    ensures AreClusters(lower, count, clusters)
  {
    hide IsComponent, RootsAreComponents, Graph, Folds, SelectCanonical, SumCounts;
    clusters := [];
    ghost var from: seq<string> := [];
    for i := 0 to |roots|
      invariant |from| == |clusters| && Distinct(from)
      invariant forall k | 0 <= k < |from| :: from[k] in roots[..i] && clusters[k].members == comp[from[k]]
      invariant forall r | r in roots[..i] && |comp[r]| >= 2 && !TouchesConfirmed(lower, comp[r]) :: r in from
      invariant forall c | c in clusters :: IsComponent(lower, count, c)
    {
      var r := roots[i];
      assert r in roots && r !in roots[..i] && roots[..i + 1] == roots[..i] + [r];
      var members := comp[r];
      if |members| < 2 {
        continue;
      }
      if TouchesConfirmed(lower, members) {
        continue;
      }
      EmittedIsComponent(lower, count, tags, folds, root, r, members);
      clusters := clusters + [MakeCluster(members, count)];
      from := from + [r];
    }
    assert roots[..|roots|] == roots;
    ClustersAreApart(lower, tags, root, folds, roots, comp, clusters, from);
    AllRelatedEmitted(lower, count, tags, folds, root, roots, comp, clusters, from);
  }

  lemma EmittedIsComponent(lower: string -> string, count: map<string, nat>, tags: seq<string>, folds: seq<string>,
                           root: map<string, string>, r: string, members: seq<string>)
    requires (forall v :: v in tags <==> v in count) && (forall v | v in tags :: lower(v) in folds)
    requires root.Keys == Folds(lower, count.Keys) && RootsAreComponents(root, Graph(root.Keys))
    requires IsClass(lower, tags, root, folds, r, members) && |members| >= 2 && !TouchesConfirmed(lower, members)
    ensures IsComponent(lower, count, MakeCluster(members, count))
  {
    hide Graph, RootsAreComponents, SelectCanonical, SumCounts, Related, Folds;
    ClassIsComponent(lower, count, tags, folds, root, r, members);
    CanonicalIsBest(members, count);
  }

  lemma ClustersAreApart(lower: string -> string, tags: seq<string>, root: map<string, string>, folds: seq<string>,
                         roots: seq<string>, comp: map<string, seq<string>>, clusters: seq<Cluster>, from: seq<string>)
    requires AreClasses(lower, tags, root, folds, roots, comp) && |from| == |clusters| && Distinct(from)
    requires forall k | 0 <= k < |from| :: from[k] in comp && clusters[k].members == comp[from[k]]
    ensures Apart(clusters)
  {
    forall i, j, v | 0 <= i < j < |clusters| && v in clusters[i].members
      ensures v !in clusters[j].members
    {
      assert IsClass(lower, tags, root, folds, from[i], comp[from[i]]);
      assert IsClass(lower, tags, root, folds, from[j], comp[from[j]]);
    }
  }

  lemma AllRelatedEmitted(lower: string -> string, count: map<string, nat>, tags: seq<string>, folds: seq<string>,
                          root: map<string, string>, roots: seq<string>, comp: map<string, seq<string>>,
                          clusters: seq<Cluster>, from: seq<string>)
    requires (forall v :: v in tags <==> v in count) && (forall v | v in tags :: lower(v) in folds)
    requires root.Keys == Folds(lower, count.Keys) && RootsAreComponents(root, Graph(root.Keys))
    requires AreClasses(lower, tags, root, folds, roots, comp) && |from| == |clusters|
    requires forall k | 0 <= k < |from| :: from[k] in comp && clusters[k].members == comp[from[k]]
    requires forall r | r in roots && |comp[r]| >= 2 && !TouchesConfirmed(lower, comp[r]) :: r in from
    ensures forall v, w | v != w && lower(v) != CONFIRMED_ACTION_TAG && Related(lower, count.Keys, v, w) ::
        InSome(clusters, v)
  {
    hide Graph, RootsAreComponents, Folds;
    forall v, w | v != w && lower(v) != CONFIRMED_ACTION_TAG && Related(lower, count.Keys, v, w)
      ensures InSome(clusters, v)
    {
      assert lower(v) in Folds(lower, count.Keys);
      var r := root[lower(v)];
      var members := comp[r];
      assert IsClass(lower, tags, root, folds, r, members);
      ClassIsComponent(lower, count, tags, folds, root, r, members);
      assert v in members && w in members;
      forall m | m in members
        ensures lower(m) != CONFIRMED_ACTION_TAG
      {
        assert Related(lower, count.Keys, v, m);
        if lower(m) == CONFIRMED_ACTION_TAG {
          ConnectedSymmetric(Graph(Folds(lower, count.Keys)), lower(v), lower(m));
          ConfirmedActionStaysApart(Folds(lower, count.Keys), lower(v));
        }
      }
      assert r in from;
      var k :| 0 <= k < |from| && from[k] == r;
      assert v in clusters[k].members;
    }
  }

  /** A dictionary from tags to their number of occurrences, with its insertion order. */
  datatype Distribution = Distribution(tags: seq<string>, count: map<string, nat>) {
    ghost predicate Valid() {
      Distinct(tags) && forall v :: v in tags <==> v in count
    }
  }

  ghost predicate SameCluster(clusters: seq<Cluster>, v: string, w: string) {
    exists i :: 0 <= i < |clusters| && v in clusters[i].members && w in clusters[i].members
  }

  /** Two tags share a cluster exactly if variants lead from one to the other; one that folds
      to `confirmed_action` is in none. */
  ghost predicate GroupsByTheRules(lower: string -> string, tags: set<string>, clusters: seq<Cluster>) {
    && (forall v, w | v != w && lower(v) != CONFIRMED_ACTION_TAG ::
        SameCluster(clusters, v, w) <==> LinkedByChain(lower, tags, v, w))
    && (forall v | lower(v) == CONFIRMED_ACTION_TAG :: !InSome(clusters, v))
  }

  lemma ClustersFollowTheRules(lower: string -> string, count: map<string, nat>, clusters: seq<Cluster>)
    requires AreClusters(lower, count, clusters)
    ensures GroupsByTheRules(lower, count.Keys, clusters)
  {
    hide Related, LinkedByChain, Preferred, SumCounts;
    forall v | InSome(clusters, v)
      ensures lower(v) != CONFIRMED_ACTION_TAG
    {
      var i :| 0 <= i < |clusters| && v in clusters[i].members;
      assert clusters[i] in clusters;
    }
    forall v, w | v != w && lower(v) != CONFIRMED_ACTION_TAG
      ensures SameCluster(clusters, v, w) <==> LinkedByChain(lower, count.Keys, v, w)
    {
      RelatedExactlyByChains(lower, count.Keys, v, w);
      if Related(lower, count.Keys, v, w) {
        var i :| 0 <= i < |clusters| && v in clusters[i].members;
        assert clusters[i] in clusters && w in clusters[i].members;
      }
      if i :| 0 <= i < |clusters| && v in clusters[i].members && w in clusters[i].members {
        assert clusters[i] in clusters;
      }
    }
  }

  /** Two counted tags that the rules make variants share a cluster. */
  lemma VariantsShareACluster(lower: string -> string, tags: set<string>, clusters: seq<Cluster>, v: string, w: string)
    requires GroupsByTheRules(lower, tags, clusters) && v in tags && w in tags && v != w
    requires lower(v) != CONFIRMED_ACTION_TAG && lower(w) != CONFIRMED_ACTION_TAG && AreVariants(lower, v, w)
    ensures SameCluster(clusters, v, w)
  {
    hide AreVariants;
    assert IsChain(lower, tags, [v, w]);
  }

  method IdentifyClusters(distribution: Distribution, lower: string -> string) returns (clusters: seq<Cluster>)
    requires distribution.Valid()
    ensures AreClusters(lower, distribution.count, clusters)
    ensures GroupsByTheRules(lower, distribution.count.Keys, clusters)
  {
    var tags := Sorted(distribution.tags);
    var folds, byFold := GroupByFold(tags, lower);
    var uf := new UnionFind<string>(set f | f in folds);
    assert RootsAreComponents(uf.root, {}) by {
      forall a, b | a in uf.root && b in uf.root && uf.root[a] == uf.root[b]
        ensures Connected({}, a, b)
      {
        ConnectedReflexive<string>({}, a);
      }
    }
    LinkForms(folds, uf);
    var roots, comp := Components(lower, tags, folds, byFold, uf);
    assert uf.root.Keys == Folds(lower, distribution.count.Keys) by {
      FoldsOfGroups(lower, tags, folds, byFold, distribution.count.Keys);
    }
    clusters := EmitClusters(tags, folds, uf.root, roots, comp, lower, distribution.count);
    ClustersFollowTheRules(lower, distribution.count, clusters);
  }

  lemma FoldsOfGroups(lower: string -> string, tags: seq<string>, folds: seq<string>, byFold: map<string, seq<string>>,
                      keys: set<string>)
    requires AreGroups(lower, tags, folds, byFold) && forall v :: v in tags <==> v in keys
    ensures (set f | f in folds) == Folds(lower, keys)
  {
    forall f | f in folds
      ensures f in Folds(lower, keys)
    {
      assert IsGroup(lower, tags, f, byFold[f]) && byFold[f][0] in byFold[f];
    }
  }
}

/** Counting and rewriting rows in scripts/tag-dedup.py (lines 147 to 160, 303 to 388, 444 to 519),
    and what the whole pipeline achieves. */
module TagRewrite {
  import opened Options
  import opened Lexicographic
  import opened TagUnionFind
  import opened TagDedup

  /** A memory row; `rest` is the metadata besides the tags. */
  datatype Row = Row(id: string, text: string, tags: seq<string>, rest: map<string, string>)

  function AllTags(rows: seq<Row>): seq<string> {
    if rows == [] then [] else AllTags(rows[..|rows| - 1]) + rows[|rows| - 1].tags
  }

  lemma AllTagsStep(rows: seq<Row>, i: nat)
    requires i < |rows|
    ensures AllTags(rows[..i + 1]) == AllTags(rows[..i]) + rows[i].tags
  {
    assert rows[..i + 1][..i] == rows[..i];
  }

  /** The tags of all rows, row by row. */
  lemma {:induction false} AllTagsExactly(a: seq<Row>, b: seq<Row>)
    ensures AllTags(a + b) == AllTags(a) + AllTags(b)
    ensures forall row :: AllTags([row]) == row.tags
  {
    assert AllTags([]) == [];
    if b == [] {
      assert a + b == a;
    } else {
      var n := |b| - 1;
      assert (a + b)[..|a| + n] == a + b[..n];
      AllTagsExactly(a, b[..n]);
    }
  }

  // ----- the distribution

  /** The distribution counts the tags of that list. */
  ghost predicate Counts(d: Distribution, tags: seq<string>) {
    d.Valid() && forall t :: CountOf(d.count, t) == multiset(tags)[t] && (t in d.count <==> t in tags)
  }

  function AddTo(d: Distribution, tag: string, n: nat): Distribution {
    Distribution(if tag in d.count then d.tags else d.tags + [tag], d.count[tag := CountOf(d.count, tag) + n])
  }

  lemma CountOneMore(d: Distribution, tags: seq<string>, tag: string)
    requires Counts(d, tags)
    ensures Counts(AddTo(d, tag, 1), tags + [tag])
  {
    assert tag in d.count <==> tag in tags;
  }

  method ComputeDistribution(rows: seq<Row>) returns (d: Distribution)
    ensures Counts(d, AllTags(rows))
  {
    hide Counts, AddTo, AllTags;
    d := Distribution([], map[]);
    NothingCounted(rows);
    for i := 0 to |rows|
      invariant Counts(d, AllTags(rows[..i]))
    {
      var tags := rows[i].tags;
      AllTagsStep(rows, i);
      ghost var before := AllTags(rows[..i]);
      assert before + tags[..0] == before;
      for j := 0 to |tags|
        invariant Counts(d, before + tags[..j])
      {
        CountOneMore(d, before + tags[..j], tags[j]);
        assert before + tags[..j + 1] == before + tags[..j] + [tags[j]];
        d := AddTo(d, tags[j], 1);
      }
      assert tags[..|tags|] == tags;
    }
    assert rows[..|rows|] == rows;
  }

  lemma CountsTags(d: Distribution, tags: seq<string>)
    requires Counts(d, tags)
    ensures forall t :: t in d.count <==> t in tags
  {
  }

  lemma NothingCounted(rows: seq<Row>)
    ensures Counts(Distribution([], map[]), AllTags(rows[..0]))
  {
  }

  // ----- the rewrite of one row

  /** The lookup table of the rewrite: later clusters win. */
  function MemberMap(clusters: seq<Cluster>): map<string, string> {
    if clusters == [] then map[] else
      var last := clusters[|clusters| - 1];
      MemberMap(clusters[..|clusters| - 1]) + map m | m in last.members :: last.canonical
  }

  method MemberToCanonical(clusters: seq<Cluster>) returns (table: map<string, string>)
    ensures table == MemberMap(clusters)
  {
    hide MemberMap;
    table := map[];
    assert clusters[..0] == [] && clusters[..|clusters|] == clusters;
    NoMembers();
    for i := 0 to |clusters|
      invariant table == MemberMap(clusters[..i])
    {
      MemberMapStep(clusters, i);
      table := AddMembers(table, clusters[i].members, clusters[i].canonical);
    }
  }

  lemma NoMembers()
    ensures MemberMap([]) == map[]
  {
  }

  lemma MemberMapStep(clusters: seq<Cluster>, i: nat)
    requires i < |clusters|
    ensures MemberMap(clusters[..i + 1])
         == MemberMap(clusters[..i]) + map m | m in clusters[i].members :: clusters[i].canonical
  {
    assert clusters[..i + 1][..i] == clusters[..i];
  }

  /** The inner loop over the members of one cluster. */
  method AddMembers(before: map<string, string>, members: seq<string>, canonical: string)
    returns (table: map<string, string>)
    ensures table == before + map m | m in members :: canonical
  {
    table := before;
    for j := 0 to |members|
      invariant table == before + map m | m in members[..j] :: canonical
    {
      assert forall m :: m in members[..j + 1] <==> m in members[..j] || m == members[j];
      table := table[members[j] := canonical];
    }
    assert members[..|members|] == members;
  }

  function Canon(table: map<string, string>, tag: string): string {
    if tag in table then table[tag] else tag
  }

  function Rewritten(table: map<string, string>, tags: seq<string>): (r: seq<string>)
    ensures |r| == |tags|
  {
    seq(|tags|, i requires 0 <= i < |tags| => Canon(table, tags[i]))
  }

  /** `list(dict.fromkeys(xs))` */
  function Dedup(xs: seq<string>): seq<string> {
    if xs == [] then [] else
      var d := Dedup(xs[..|xs| - 1]);
      if xs[|xs| - 1] in d then d else d + [xs[|xs| - 1]]
  }

  function RowResult(table: map<string, string>, tags: seq<string>): (seq<string>, bool) {
    var deduped := Dedup(Rewritten(table, tags));
    if CONFIRMED_ACTION_TAG in tags && CONFIRMED_ACTION_TAG !in deduped then (tags, false)
    else (deduped, deduped != tags)
  }

  method ApplyClusterToRow(rowTags: seq<string>, clusters: seq<Cluster>) returns (tags: seq<string>, changed: bool)
    ensures (tags, changed) == RowResult(MemberMap(clusters), rowTags)
  {
    var table := MemberToCanonical(clusters);
    var deduped := Dedup(Rewritten(table, rowTags));
    if CONFIRMED_ACTION_TAG in rowTags && CONFIRMED_ACTION_TAG !in deduped {
      return rowTags, false;
    }
    return deduped, deduped != rowTags;
  }

  /** The position of the first occurrence, or the length of the list. */
  function FirstIndex(xs: seq<string>, x: string): nat {
    if xs == [] || xs[0] == x then 0 else 1 + FirstIndex(xs[1..], x)
  }

  lemma {:induction false} FirstIndexOfLonger(xs: seq<string>, x: string, y: string)
    ensures FirstIndex(xs, x) <= |xs| && (x in xs <==> FirstIndex(xs, x) < |xs|)
    ensures FirstIndex(xs + [y], x) == if x in xs then FirstIndex(xs, x) else if x == y then |xs| else |xs| + 1
  {
    if xs != [] {
      assert (xs + [y])[1..] == xs[1..] + [y];
      FirstIndexOfLonger(xs[1..], x, y);
    }
  }

  /** Every element once, in the order of the first occurrences. */
  lemma {:induction false} DedupKeepsFirsts(xs: seq<string>)
    ensures Distinct(Dedup(xs)) && forall x :: x in Dedup(xs) <==> x in xs
    ensures forall i, j | 0 <= i < j < |Dedup(xs)| :: FirstIndex(xs, Dedup(xs)[i]) < FirstIndex(xs, Dedup(xs)[j])
  {
    if xs == [] {
    } else {
      var front, last := xs[..|xs| - 1], xs[|xs| - 1];
      assert xs == front + [last];
      DedupKeepsFirsts(front);
      forall x | x in Dedup(xs)
        ensures FirstIndex(xs, x) == if x in front then FirstIndex(front, x) else |front|
        ensures FirstIndex(front, x) <= |front| && (x in front ==> FirstIndex(front, x) < |front|)
      {
        FirstIndexOfLonger(front, x, last);
      }
    }
  }

  lemma {:induction false} DedupOfDistinct(xs: seq<string>)
    requires Distinct(xs)
    ensures Dedup(xs) == xs
  {
    if xs != [] {
      var front := xs[..|xs| - 1];
      DedupOfDistinct(front);
      assert xs == front + [xs[|xs| - 1]];
    }
  }

  // ----- the rewrite under clusters that the detection found

  lemma {:induction false} CanonOfOther(clusters: seq<Cluster>, tag: string)
    requires forall c | c in clusters :: tag !in c.members
    ensures tag !in MemberMap(clusters)
  {
    if clusters != [] {
      assert clusters[|clusters| - 1] in clusters;
      CanonOfOther(clusters[..|clusters| - 1], tag);
    }
  }

  lemma {:induction false} CanonOfMember(clusters: seq<Cluster>, i: nat, tag: string)
    requires Apart(clusters) && i < |clusters| && tag in clusters[i].members
    ensures tag in MemberMap(clusters) && MemberMap(clusters)[tag] == clusters[i].canonical
  {
    var n := |clusters| - 1;
    if i < n {
      assert tag !in clusters[n].members;
      CanonOfMember(clusters[..n], i, tag);
    }
  }

  /** A cluster as the operator leaves it: any of its members may be the canonical form. */
  ghost predicate IsMerge(lower: string -> string, count: map<string, nat>, c: Cluster) {
    && c.canonical in c.members
    && forall v | v in c.members :: v in count && lower(v) != CONFIRMED_ACTION_TAG
  }

  ghost predicate AreMerges(lower: string -> string, count: map<string, nat>, clusters: seq<Cluster>) {
    (forall c | c in clusters :: IsMerge(lower, count, c)) && Apart(clusters)
  }

  lemma ClustersAreMerges(lower: string -> string, count: map<string, nat>, clusters: seq<Cluster>)
    requires AreClusters(lower, count, clusters)
    ensures AreMerges(lower, count, clusters)
  {
    hide Related, Preferred, Apart;
  }

  /** A tag goes to the canonical form of its cluster, which is a tag that stays. */
  lemma CanonCases(lower: string -> string, count: map<string, nat>, clusters: seq<Cluster>, tag: string)
    requires AreMerges(lower, count, clusters)
    ensures var table := MemberMap(clusters);
            var r := Canon(table, tag);
            && Canon(table, r) == r && (tag in count ==> r in count)
            && (lower(tag) == CONFIRMED_ACTION_TAG ==> r == tag)
            && forall i | 0 <= i < |clusters| && tag in clusters[i].members :: r == clusters[i].canonical
  {
    hide MemberMap;
    if i :| 0 <= i < |clusters| && tag in clusters[i].members {
      assert IsMerge(lower, count, clusters[i]);
      CanonOfMember(clusters, i, tag);
      CanonOfMember(clusters, i, clusters[i].canonical);
      forall j | 0 <= j < |clusters| && tag in clusters[j].members
        ensures j == i
      {
      }
    } else {
      CanonOfOther(clusters, tag);
    }
  }

  lemma DedupMapped(table: map<string, string>, tags: seq<string>)
    ensures var d := Dedup(Rewritten(table, tags));
            Distinct(d) && forall t :: t in d <==> exists x | x in tags :: Canon(table, x) == t
  {
    hide Dedup, Canon;
    var r := Rewritten(table, tags);
    DedupKeepsFirsts(r);
    forall t
      ensures t in r <==> exists x | x in tags :: Canon(table, x) == t
    {
      if t in r {
        var i :| 0 <= i < |r| && r[i] == t;
        assert tags[i] in tags && Canon(table, tags[i]) == t;
      }
      if x :| x in tags && Canon(table, x) == t {
        var i :| 0 <= i < |tags| && tags[i] == x;
        assert r[i] == t;
      }
    }
  }

  /** The guard for `confirmed_action` never fires: the tag survives every rewrite. */
  lemma GuardIsUnreachable(lower: string -> string, count: map<string, nat>, clusters: seq<Cluster>, tags: seq<string>)
    requires lower(CONFIRMED_ACTION_TAG) == CONFIRMED_ACTION_TAG && AreMerges(lower, count, clusters)
    ensures CONFIRMED_ACTION_TAG in tags ==> CONFIRMED_ACTION_TAG in Dedup(Rewritten(MemberMap(clusters), tags))
    ensures RowResult(MemberMap(clusters), tags).0 == Dedup(Rewritten(MemberMap(clusters), tags))
    ensures RowResult(MemberMap(clusters), tags).1 <==> Dedup(Rewritten(MemberMap(clusters), tags)) != tags
  {
    hide Dedup, Rewritten, MemberMap, Canon, AreMerges;
    DedupMapped(MemberMap(clusters), tags);
    CanonCases(lower, count, clusters, CONFIRMED_ACTION_TAG);
  }

  /** Rewriting a rewritten row changes nothing and says so. */
  lemma RewriteIsIdempotent(lower: string -> string, count: map<string, nat>, clusters: seq<Cluster>, tags: seq<string>)
    requires lower(CONFIRMED_ACTION_TAG) == CONFIRMED_ACTION_TAG && AreMerges(lower, count, clusters)
    ensures var once := RowResult(MemberMap(clusters), tags).0;
            RowResult(MemberMap(clusters), once) == (once, false)
  {
    hide *;
    var table := MemberMap(clusters);
    var once := Dedup(Rewritten(table, tags));
    GuardIsUnreachable(lower, count, clusters, tags);
    GuardIsUnreachable(lower, count, clusters, once);
    assert Distinct(once) by { DedupMapped(table, tags); }
    RewrittenOnceStays(lower, count, clusters, tags);
    DedupOfDistinct(once);
  }

  lemma RewrittenOnceStays(lower: string -> string, count: map<string, nat>, clusters: seq<Cluster>, tags: seq<string>)
    requires AreMerges(lower, count, clusters)
    ensures var once := Dedup(Rewritten(MemberMap(clusters), tags)); Rewritten(MemberMap(clusters), once) == once
  {
    hide Dedup, MemberMap, AreMerges, Canon;
    var table := MemberMap(clusters);
    var once := Dedup(Rewritten(table, tags));
    DedupMapped(table, tags);
    forall i | 0 <= i < |once|
      ensures Rewritten(table, once)[i] == once[i]
    {
      assert once[i] in once;
      var x :| x in tags && Canon(table, x) == once[i];
      CanonCases(lower, count, clusters, x);
    }
  }

  // ----- the simulated distribution of the report

  method SimulateAfter(d: Distribution, clusters: seq<Cluster>) returns (after: Distribution)
    requires d.Valid()
    ensures IsAfter(d, MemberMap(clusters), |d.tags|, after)
  {
    hide IsAfter, AddTo;
    var table := MemberToCanonical(clusters);
    after := Distribution([], map[]);
    NothingSimulated(d, table);
    for i := 0 to |d.tags|
      invariant IsAfter(d, table, i, after)
    {
      SimulateOneMore(d, table, i, after);
      after := AddTo(after, Canon(table, d.tags[i]), d.count[d.tags[i]]);
    }
  }

  /** How often the tags among the first n that are mapped to t occur. */
  function MappedCount(d: Distribution, table: map<string, string>, n: nat, t: string): nat
    requires n <= |d.tags|
  {
    if n == 0 then 0 else
      MappedCount(d, table, n - 1, t)
      + (if Canon(table, d.tags[n - 1]) == t then CountOf(d.count, d.tags[n - 1]) else 0)
  }

  ghost predicate IsAfter(d: Distribution, table: map<string, string>, n: nat, after: Distribution) {
    && n <= |d.tags| && after.Valid()
    && (forall t :: CountOf(after.count, t) == MappedCount(d, table, n, t))
    && SumCounts(after.tags, after.count) == SumCounts(d.tags[..n], d.count)
  }

  lemma NothingSimulated(d: Distribution, table: map<string, string>)
    ensures IsAfter(d, table, 0, Distribution([], map[]))
  {
  }

  lemma {:induction false} SumOfOthers(tags: seq<string>, a: map<string, nat>, b: map<string, nat>)
    requires forall t | t in tags :: CountOf(a, t) == CountOf(b, t)
    ensures SumCounts(tags, a) == SumCounts(tags, b)
  {
    if tags != [] {
      SumOfOthers(tags[..|tags| - 1], a, b);
    }
  }

  lemma {:induction false} SumWithMore(tags: seq<string>, count: map<string, nat>, tag: string, n: nat)
    requires Distinct(tags) && tag in tags
    ensures SumCounts(tags, count[tag := CountOf(count, tag) + n]) == SumCounts(tags, count) + n
  {
    var more := count[tag := CountOf(count, tag) + n];
    var front, last := tags[..|tags| - 1], tags[|tags| - 1];
    if last == tag {
      SumOfOthers(front, more, count);
    } else {
      SumWithMore(front, count, tag, n);
    }
  }

  lemma CountAfterAdd(d: Distribution, t: string, n: nat, x: string)
    ensures CountOf(AddTo(d, t, n).count, x) == CountOf(d.count, x) + (if x == t then n else 0)
  {
  }

  lemma MappedCountStep(d: Distribution, table: map<string, string>, i: nat, x: string)
    requires i < |d.tags|
    ensures MappedCount(d, table, i + 1, x)
         == MappedCount(d, table, i, x) + (if x == Canon(table, d.tags[i]) then CountOf(d.count, d.tags[i]) else 0)
  {
  }

  lemma SimulateOneMore(d: Distribution, table: map<string, string>, i: nat, after: Distribution)
    requires i < |d.tags| && d.Valid() && IsAfter(d, table, i, after)
    ensures d.tags[i] in d.count
    ensures IsAfter(d, table, i + 1, AddTo(after, Canon(table, d.tags[i]), d.count[d.tags[i]]))
  {
    hide AddTo, MappedCount, SumCounts, Canon;
    var tag := d.tags[i];
    assert tag in d.tags && CountOf(d.count, tag) == d.count[tag];
    hide CountOf;
    var n, t := d.count[tag], Canon(table, tag);
    AddToSums(after, t, n);
    SumSnoc(d.tags, i, d.count);
    forall x
      ensures CountOf(AddTo(after, t, n).count, x) == MappedCount(d, table, i + 1, x)
    {
      CountAfterAdd(after, t, n, x);
      MappedCountStep(d, table, i, x);
    }
  }

  lemma SumSnoc(tags: seq<string>, i: nat, count: map<string, nat>)
    requires i < |tags|
    ensures SumCounts(tags[..i + 1], count) == SumCounts(tags[..i], count) + CountOf(count, tags[i])
  {
    assert tags[..i + 1][..i] == tags[..i];
  }

  lemma AddToSums(after: Distribution, t: string, n: nat)
    requires after.Valid()
    ensures AddTo(after, t, n).Valid()
    ensures var next := AddTo(after, t, n);
            SumCounts(next.tags, next.count) == SumCounts(after.tags, after.count) + n
  {
    var next := AddTo(after, t, n);
    if t in after.count {
      SumWithMore(after.tags, after.count, t, n);
    } else {
      assert next.tags[..|next.tags| - 1] == after.tags;
      SumOfOthers(after.tags, next.count, after.count);
    }
  }

  // ----- the simulation against the rewritten rows

  /** How often the keys that are mapped to t occur in a list. */
  ghost function Hits(keys: seq<string>, table: map<string, string>, tags: seq<string>, t: string): nat {
    if keys == [] then 0 else
      var front, last := keys[..|keys| - 1], keys[|keys| - 1];
      Hits(front, table, tags, t) + (if Canon(table, last) == t then multiset(tags)[last] else 0)
  }

  lemma {:induction false} HitsOfOther(keys: seq<string>, table: map<string, string>, tags: seq<string>, x: string,
      t: string)
    requires x !in keys || Canon(table, x) != t
    ensures Hits(keys, table, tags + [x], t) == Hits(keys, table, tags, t)
  {
    if keys != [] {
      assert keys[|keys| - 1] in keys;
      HitsOfOther(keys[..|keys| - 1], table, tags, x, t);
    }
  }

  lemma {:induction false} HitsOneMore(keys: seq<string>, table: map<string, string>, tags: seq<string>, x: string)
    requires Distinct(keys) && x in keys
    ensures Hits(keys, table, tags + [x], Canon(table, x)) == Hits(keys, table, tags, Canon(table, x)) + 1
  {
    var front, last := keys[..|keys| - 1], keys[|keys| - 1];
    if last == x {
      assert x !in front;
      HitsOfOther(front, table, tags, x, Canon(table, x));
    } else {
      HitsOneMore(front, table, tags, x);
    }
  }

  lemma {:induction false} HitsOfNothing(keys: seq<string>, table: map<string, string>, t: string)
    ensures Hits(keys, table, [], t) == 0
  {
    if keys != [] {
      HitsOfNothing(keys[..|keys| - 1], table, t);
    }
  }

  /** Counting by key and counting by position agree. */
  lemma {:induction false} HitsAreOccurrences(keys: seq<string>, table: map<string, string>, tags: seq<string>,
      t: string)
    requires Distinct(keys) && forall x | x in tags :: x in keys
    ensures Hits(keys, table, tags, t) == multiset(Rewritten(table, tags))[t]
  {
    if tags == [] {
      HitsOfNothing(keys, table, t);
    } else {
      var front, last := tags[..|tags| - 1], tags[|tags| - 1];
      HitsAreOccurrences(keys, table, front, t);
      assert tags == front + [last];
      assert Rewritten(table, tags) == Rewritten(table, front) + [Canon(table, last)];
      if Canon(table, last) == t {
        HitsOneMore(keys, table, front, last);
      } else {
        HitsOfOther(keys, table, front, last, t);
      }
    }
  }

  lemma {:induction false} MappedCountIsHits(d: Distribution, table: map<string, string>, tags: seq<string>, n: nat,
      t: string)
    requires n <= |d.tags| && Counts(d, tags)
    ensures MappedCount(d, table, n, t) == Hits(d.tags[..n], table, tags, t)
  {
    if n > 0 {
      assert d.tags[..n][..n - 1] == d.tags[..n - 1];
      MappedCountIsHits(d, table, tags, n - 1, t);
    }
  }

  lemma {:induction false} DedupDropsOnly(xs: seq<string>, t: string)
    ensures multiset(Dedup(xs))[t] <= multiset(xs)[t]
  {
    if xs != [] {
      var front, last := xs[..|xs| - 1], xs[|xs| - 1];
      assert xs == front + [last];
      DedupDropsOnly(front, t);
    }
  }

  function RewrittenRows(table: map<string, string>, rows: seq<Row>): (r: seq<Row>)
    ensures |r| == |rows|
  {
    seq(|rows|, i requires 0 <= i < |rows| => rows[i].(tags := RowResult(table, rows[i].tags).0))
  }

  lemma RewrittenConcat(table: map<string, string>, a: seq<string>, b: seq<string>)
    ensures Rewritten(table, a + b) == Rewritten(table, a) + Rewritten(table, b)
  {
  }

  lemma AllTagsSnoc(rows: seq<Row>, last: Row)
    ensures AllTags(rows + [last]) == AllTags(rows) + last.tags
  {
    assert (rows + [last])[..|rows|] == rows;
  }

  lemma {:induction false} RewrittenRowsHoldNoMore(table: map<string, string>, rows: seq<Row>, t: string)
    requires forall r | r in rows :: RowResult(table, r.tags).0 == Dedup(Rewritten(table, r.tags))
    ensures multiset(AllTags(RewrittenRows(table, rows)))[t] <= multiset(Rewritten(table, AllTags(rows)))[t]
  {
    hide Rewritten, Dedup, RowResult, AllTags;
    if rows == [] {
      assert RewrittenRows(table, rows) == rows && AllTags(rows) == [] by { NoTags(); }
    } else {
      var front, last := rows[..|rows| - 1], rows[|rows| - 1];
      RewrittenRowsHoldNoMore(table, front, t);
      assert last in rows && rows == front + [last];
      var last' := last.(tags := Dedup(Rewritten(table, last.tags)));
      assert RewrittenRows(table, rows) == RewrittenRows(table, front) + [last'];
      AllTagsSnoc(front, last);
      AllTagsSnoc(RewrittenRows(table, front), last');
      RewrittenConcat(table, AllTags(front), last.tags);
      DedupDropsOnly(Rewritten(table, last.tags), t);
    }
  }

  lemma NoTags()
    ensures AllTags([]) == []
  {
  }

  /** The report promises no less than the rewrite leaves: for every tag the simulated count is an
      upper bound of the count in the rewritten rows, and the simulated total is the old total. */
  lemma ReportBoundsTheRewrite(lower: string -> string, rows: seq<Row>, d: Distribution, clusters: seq<Cluster>,
                               after: Distribution, t: string)
    requires lower(CONFIRMED_ACTION_TAG) == CONFIRMED_ACTION_TAG
    requires Counts(d, AllTags(rows)) && AreMerges(lower, d.count, clusters)
    requires IsAfter(d, MemberMap(clusters), |d.tags|, after)
    ensures multiset(AllTags(RewrittenRows(MemberMap(clusters), rows)))[t] <= CountOf(after.count, t)
    ensures SumCounts(after.tags, after.count) == SumCounts(d.tags, d.count)
  {
    hide MemberMap, AreMerges, RowResult, AllTags, Rewritten, Dedup;
    var table, tags := MemberMap(clusters), AllTags(rows);
    assert d.tags[..|d.tags|] == d.tags;
    MappedCountIsHits(d, table, tags, |d.tags|, t);
    HitsAreOccurrences(d.tags, table, tags, t);
    forall r | r in rows
      ensures RowResult(table, r.tags).0 == Dedup(Rewritten(table, r.tags))
    {
      GuardIsUnreachable(lower, d.count, clusters, r.tags);
    }
    RewrittenRowsHoldNoMore(table, rows, t);
  }

  // ----- the pipeline

  lemma {:induction false} TagOfSomeRow(rows: seq<Row>, t: string)
    requires t in AllTags(rows)
    ensures exists i :: 0 <= i < |rows| && t in rows[i].tags
  {
    var front, last := rows[..|rows| - 1], rows[|rows| - 1];
    if t in last.tags {
      assert t in rows[|rows| - 1].tags;
    } else {
      TagOfSomeRow(front, t);
      var i :| 0 <= i < |front| && t in front[i].tags;
      assert t in rows[i].tags;
    }
  }

  lemma {:induction false} RowTagIsCounted(rows: seq<Row>, i: nat, t: string)
    requires i < |rows| && t in rows[i].tags
    ensures t in AllTags(rows)
  {
    if i < |rows| - 1 {
      RowTagIsCounted(rows[..|rows| - 1], i, t);
    }
  }

  lemma RewrittenRow(table: map<string, string>, rows: seq<Row>, i: nat)
    requires i < |rows|
    ensures RewrittenRows(table, rows)[i] == rows[i].(tags := RowResult(table, rows[i].tags).0)
    ensures RowResult(table, rows[i].tags).1 <==> RowResult(table, rows[i].tags).0 != rows[i].tags
  {
  }

  /** A tag of the rewritten rows is a tag of the rows, and one that stays. */
  lemma RewrittenTagStays(lower: string -> string, rows: seq<Row>, d: Distribution, clusters: seq<Cluster>, t: string)
    requires lower(CONFIRMED_ACTION_TAG) == CONFIRMED_ACTION_TAG
    requires Counts(d, AllTags(rows)) && AreMerges(lower, d.count, clusters)
    requires t in AllTags(RewrittenRows(MemberMap(clusters), rows))
    ensures t in d.count && Canon(MemberMap(clusters), t) == t
  {
    hide *;
    var table := MemberMap(clusters);
    CountsTags(d, AllTags(rows));
    TagOfSomeRow(RewrittenRows(table, rows), t);
    var i :| 0 <= i < |rows| && t in RewrittenRows(table, rows)[i].tags;
    RewrittenRow(table, rows, i);
    GuardIsUnreachable(lower, d.count, clusters, rows[i].tags);
    DedupMapped(table, rows[i].tags);
    var x :| x in rows[i].tags && Canon(table, x) == t;
    CanonCases(lower, d.count, clusters, x);
    RowTagIsCounted(rows, i, x);
  }

  lemma FewerTagsFewerLinks(lower: string -> string, few: set<string>, many: set<string>, v: string, w: string)
    requires few <= many && Related(lower, few, v, w)
    ensures Related(lower, many, v, w)
  {
    hide IsLink;
    assert Folds(lower, few) <= Folds(lower, many);
    assert Graph(Folds(lower, few)) <= Graph(Folds(lower, many));
    ConnectedWithMore(Graph(Folds(lower, few)), Graph(Folds(lower, many)), lower(v), lower(w));
  }

  // ----- what the operator accepts

  /** What the operator answers for a cluster: skip it, or merge it into one of its members. */
  type Choice = Cluster -> Maybe<string>

  ghost predicate ChoosesMembers(choose: Choice, clusters: seq<Cluster>) {
    forall c | c in clusters && choose(c).Some? :: choose(c).value in c.members
  }

  function Accepted(clusters: seq<Cluster>, choose: Choice): seq<Cluster> {
    if clusters == [] then [] else
      var last := clusters[|clusters| - 1];
      Accepted(clusters[..|clusters| - 1], choose)
      + (if choose(last).Some? then [last.(canonical := choose(last).value)] else [])
  }

  method AcceptClusters(clusters: seq<Cluster>, choose: Choice) returns (accepted: seq<Cluster>)
    ensures accepted == Accepted(clusters, choose)
  {
    accepted := [];
    assert clusters[..|clusters|] == clusters;
    for i := 0 to |clusters|
      invariant accepted == Accepted(clusters[..i], choose)
    {
      var chosen := choose(clusters[i]);
      assert clusters[..i + 1][..i] == clusters[..i];
      if chosen.None? {
        continue;
      }
      if chosen.value != clusters[i].canonical {
        accepted := accepted + [clusters[i].(canonical := chosen.value)];
      } else {
        accepted := accepted + [clusters[i]];
      }
    }
  }

  /** The accepted merges are the clusters that were not skipped, with the chosen canonical forms. */
  lemma {:induction false} AcceptedFrom(clusters: seq<Cluster>, choose: Choice)
    ensures forall a | a in Accepted(clusters, choose) ::
              exists c :: c in clusters && choose(c).Some? && a == c.(canonical := choose(c).value)
    ensures forall c | c in clusters && choose(c).Some? ::
        c.(canonical := choose(c).value) in Accepted(clusters, choose)
  {
    if clusters != [] {
      var front, last := clusters[..|clusters| - 1], clusters[|clusters| - 1];
      AcceptedFrom(front, choose);
      assert last in clusters && forall c :: c in clusters <==> c in front || c == last;
    }
  }

  lemma {:induction false} AcceptedAreApart(clusters: seq<Cluster>, choose: Choice)
    requires Apart(clusters)
    ensures Apart(Accepted(clusters, choose))
  {
    if clusters != [] {
      var front, last := clusters[..|clusters| - 1], clusters[|clusters| - 1];
      AcceptedAreApart(front, choose);
      AcceptedFrom(front, choose);
      forall a, v | a in Accepted(front, choose) && v in a.members
        ensures v !in last.members
      {
        var c :| c in front && choose(c).Some? && a == c.(canonical := choose(c).value);
        var k :| 0 <= k < |front| && front[k] == c;
        assert clusters[k] == c;
      }
    }
  }

  lemma AcceptedAreMerges(lower: string -> string, count: map<string, nat>, clusters: seq<Cluster>, choose: Choice)
    requires AreMerges(lower, count, clusters) && ChoosesMembers(choose, clusters)
    ensures AreMerges(lower, count, Accepted(clusters, choose))
  {
    hide Accepted, Apart;
    AcceptedAreApart(clusters, choose);
    AcceptedFrom(clusters, choose);
  }

  // ----- what a second run finds

  ghost predicate IsSkipped(clusters: seq<Cluster>, choose: Choice, v: string) {
    exists c :: c in clusters && choose(c).None? && v in c.members
  }

  /** A tag that no accepted merge holds is still there after the rewrite. */
  lemma SkippedTagStays(lower: string -> string, rows: seq<Row>, d: Distribution, merges: seq<Cluster>, t: string)
    requires lower(CONFIRMED_ACTION_TAG) == CONFIRMED_ACTION_TAG
    requires Counts(d, AllTags(rows)) && AreMerges(lower, d.count, merges)
    requires t in d.count && forall c | c in merges :: t !in c.members
    ensures t in AllTags(RewrittenRows(MemberMap(merges), rows))
  {
    hide *;
    var table := MemberMap(merges);
    CountsTags(d, AllTags(rows));
    TagOfSomeRow(rows, t);
    var i :| 0 <= i < |rows| && t in rows[i].tags;
    RewrittenRow(table, rows, i);
    GuardIsUnreachable(lower, d.count, merges, rows[i].tags);
    DedupMapped(table, rows[i].tags);
    assert Canon(table, t) == t by { NoMergeNoChange(merges, t); }
    RowTagIsCounted(RewrittenRows(table, rows), i, t);
  }

  lemma NoMergeNoChange(merges: seq<Cluster>, t: string)
    requires forall c | c in merges :: t !in c.members
    ensures Canon(MemberMap(merges), t) == t
  {
    hide MemberMap;
    CanonOfOther(merges, t);
  }

  /** A walk stays possible when every key that it can reach stays. */
  lemma {:induction false} WalkInFewer(many: set<string>, few: set<string>, a: string, b: string, n: nat)
    requires Walk(Graph(many), a, b, n) && a in few
    requires forall f | f in many && Connected(Graph(many), a, f) :: f in few
    ensures Walk(Graph(few), a, b, n)
    decreases n
  {
    hide IsLink;
    if n > 0 {
      var c :| Adjacent(Graph(many), a, c) && Walk(Graph(many), c, b, n - 1);
      ConnectedByLink(Graph(many), a, c);
      forall f | f in many && Connected(Graph(many), c, f)
        ensures f in few
      {
        ConnectedTransitive(Graph(many), a, c, f);
      }
      assert Adjacent(Graph(few), a, c);
      WalkInFewer(many, few, c, b, n - 1);
    }
  }

  /** Tags of one whole component stay related when all of them stay. */
  lemma RelatedInFewer(lower: string -> string, few: set<string>, many: set<string>, v: string, w: string)
    requires few <= many && Related(lower, many, v, w) && v in few && w in few
    requires forall u | Related(lower, many, v, u) :: u in few
    ensures Related(lower, few, v, w)
  {
    hide IsLink, Walk;
    var g := Graph(Folds(lower, many));
    var n: nat :| Walk(g, lower(v), lower(w), n);
    forall f | f in Folds(lower, many) && Connected(g, lower(v), f)
      ensures f in Folds(lower, few)
    {
      var u :| u in many && lower(u) == f;
      assert Related(lower, many, v, u);
    }
    WalkInFewer(Folds(lower, many), Folds(lower, few), lower(v), lower(w), n);
  }

  /** After the accepted merges were applied to every row, a second detection finds exactly the tags of
      the clusters that were skipped. */
  lemma SecondRunFindsTheSkipped(lower: string -> string, rows: seq<Row>, d: Distribution, clusters: seq<Cluster>,
                                 choose: Choice, d': Distribution, clusters': seq<Cluster>, v: string)
    requires lower(CONFIRMED_ACTION_TAG) == CONFIRMED_ACTION_TAG
    requires Counts(d, AllTags(rows)) && AreClusters(lower, d.count, clusters) && ChoosesMembers(choose, clusters)
    requires Counts(d', AllTags(RewrittenRows(MemberMap(Accepted(clusters, choose)), rows)))
    requires AreClusters(lower, d'.count, clusters')
    ensures InSome(clusters', v) <==> IsSkipped(clusters, choose, v)
  {
    hide *;
    ClustersAreMerges(lower, d.count, clusters);
    AcceptedAreMerges(lower, d.count, clusters, choose);
    if InSome(clusters', v) {
      FoundIsSkipped(lower, rows, d, clusters, choose, d', clusters', v);
    }
    if IsSkipped(clusters, choose, v) {
      SkippedIsFound(lower, rows, d, clusters, choose, d', clusters', v);
    }
  }

  lemma FoundIsSkipped(lower: string -> string, rows: seq<Row>, d: Distribution, clusters: seq<Cluster>,
                       choose: Choice, d': Distribution, clusters': seq<Cluster>, v: string)
    requires lower(CONFIRMED_ACTION_TAG) == CONFIRMED_ACTION_TAG
    requires Counts(d, AllTags(rows)) && AreClusters(lower, d.count, clusters)
    requires AreMerges(lower, d.count, Accepted(clusters, choose))
    requires Counts(d', AllTags(RewrittenRows(MemberMap(Accepted(clusters, choose)), rows)))
    requires AreClusters(lower, d'.count, clusters') && InSome(clusters', v)
    ensures IsSkipped(clusters, choose, v)
  {
    hide MemberMap, AllTags, Canon, Related, RewrittenRows, Accepted, Counts, IsComponent, Apart, AreMerges;
    var merges := Accepted(clusters, choose);
    var j :| 0 <= j < |clusters'| && v in clusters'[j].members;
    var w := OtherMember(lower, d'.count, clusters'[j], v);
    StaysOfCounted(lower, rows, d, merges, d', v);
    StaysOfCounted(lower, rows, d, merges, d', w);
    assert d'.count.Keys <= d.count.Keys by { FewerTags(lower, rows, d, merges, d'); }
    FewerTagsFewerLinks(lower, d'.count.Keys, d.count.Keys, v, w);
    assert InSome(clusters, v);
    var i :| 0 <= i < |clusters| && v in clusters[i].members;
    var c := clusters[i];
    assert c in clusters && IsComponent(lower, d.count, c);
    assert w in c.members by { MemberOfComponent(lower, d.count, c, v, w); }
    if choose(c).Some? {
      AcceptedFrom(clusters, choose);
      MergedTagsAgree(lower, d.count, merges, c.(canonical := choose(c).value), v, w);
    }
  }

  lemma OtherMember(lower: string -> string, count: map<string, nat>, c: Cluster, v: string) returns (w: string)
    requires IsComponent(lower, count, c) && v in c.members
    ensures w in c.members && w != v && v in count && w in count && lower(v) != CONFIRMED_ACTION_TAG
    ensures Related(lower, count.Keys, v, w)
  {
    hide Related, Preferred;
    w := if c.members[0] == v then c.members[1] else c.members[0];
  }

  lemma MemberOfComponent(lower: string -> string, count: map<string, nat>, c: Cluster, v: string, w: string)
    requires IsComponent(lower, count, c) && v in c.members
    ensures w in c.members <==> Related(lower, count.Keys, v, w)
  {
    hide Related, Preferred;
  }

  lemma StaysOfCounted(lower: string -> string, rows: seq<Row>, d: Distribution, merges: seq<Cluster>,
                       d': Distribution, t: string)
    requires lower(CONFIRMED_ACTION_TAG) == CONFIRMED_ACTION_TAG
    requires Counts(d, AllTags(rows)) && AreMerges(lower, d.count, merges)
    requires Counts(d', AllTags(RewrittenRows(MemberMap(merges), rows))) && t in d'.count
    ensures t in d.count && Canon(MemberMap(merges), t) == t
  {
    hide *;
    CountsTags(d', AllTags(RewrittenRows(MemberMap(merges), rows)));
    RewrittenTagStays(lower, rows, d, merges, t);
  }

  lemma FewerTags(lower: string -> string, rows: seq<Row>, d: Distribution, merges: seq<Cluster>, d': Distribution)
    requires lower(CONFIRMED_ACTION_TAG) == CONFIRMED_ACTION_TAG
    requires Counts(d, AllTags(rows)) && AreMerges(lower, d.count, merges)
    requires Counts(d', AllTags(RewrittenRows(MemberMap(merges), rows)))
    ensures d'.count.Keys <= d.count.Keys
  {
    hide *;
    forall t | t in d'.count
      ensures t in d.count
    {
      StaysOfCounted(lower, rows, d, merges, d', t);
    }
  }

  lemma MergedTagsAgree(lower: string -> string, count: map<string, nat>, merges: seq<Cluster>, c: Cluster,
                        v: string, w: string)
    requires AreMerges(lower, count, merges) && c in merges && v in c.members && w in c.members
    ensures Canon(MemberMap(merges), v) == Canon(MemberMap(merges), w)
  {
    hide MemberMap, Canon, AreMerges;
    var i :| 0 <= i < |merges| && merges[i] == c;
    CanonCases(lower, count, merges, v);
    CanonCases(lower, count, merges, w);
  }

  lemma SkippedIsFound(lower: string -> string, rows: seq<Row>, d: Distribution, clusters: seq<Cluster>,
                       choose: Choice, d': Distribution, clusters': seq<Cluster>, v: string)
    requires lower(CONFIRMED_ACTION_TAG) == CONFIRMED_ACTION_TAG
    requires Counts(d, AllTags(rows)) && AreClusters(lower, d.count, clusters)
    requires AreMerges(lower, d.count, Accepted(clusters, choose))
    requires Counts(d', AllTags(RewrittenRows(MemberMap(Accepted(clusters, choose)), rows)))
    requires AreClusters(lower, d'.count, clusters') && IsSkipped(clusters, choose, v)
    ensures InSome(clusters', v)
  {
    hide MemberMap, AllTags, Canon, Related, RewrittenRows, Accepted, Counts, IsComponent, AreMerges;
    var merges := Accepted(clusters, choose);
    var c :| c in clusters && choose(c).None? && v in c.members;
    var w := OtherMember(lower, d.count, c, v);
    forall u | Related(lower, d.count.Keys, v, u)
      ensures u in d'.count
    {
      MemberOfComponent(lower, d.count, c, v, u);
      assert u in d.count by { ComponentIsCounted(lower, d.count, c, u); }
      assert forall m | m in merges :: u !in m.members by { SkippedIsInNoMerge(clusters, choose, c, u); }
      SkippedTagStays(lower, rows, d, merges, u);
      CountsTags(d', AllTags(RewrittenRows(MemberMap(merges), rows)));
    }
    FewerTags(lower, rows, d, merges, d');
    MemberOfComponent(lower, d.count, c, v, v);
    RelatedInFewer(lower, d'.count.Keys, d.count.Keys, v, w);
  }

  lemma ComponentIsCounted(lower: string -> string, count: map<string, nat>, c: Cluster, u: string)
    requires IsComponent(lower, count, c) && u in c.members
    ensures u in count
  {
    hide Related, Preferred;
  }

  lemma SkippedIsInNoMerge(clusters: seq<Cluster>, choose: Choice, c: Cluster, u: string)
    requires Apart(clusters) && c in clusters && choose(c).None? && u in c.members
    ensures forall m | m in Accepted(clusters, choose) :: u !in m.members
  {
    hide Accepted;
    AcceptedFrom(clusters, choose);
    forall m | m in Accepted(clusters, choose)
      ensures u !in m.members
    {
      var a :| a in clusters && choose(a).Some? && m == a.(canonical := choose(a).value);
      var i :| 0 <= i < |clusters| && clusters[i] == c;
      var k :| 0 <= k < |clusters| && clusters[k] == a;
      assert i != k;
    }
  }

  /** There is nothing left to merge if and only if the operator skipped no cluster. */
  lemma PipelineReachesFixpoint(lower: string -> string, rows: seq<Row>, d: Distribution, clusters: seq<Cluster>,
                                choose: Choice, d': Distribution, clusters': seq<Cluster>)
    requires lower(CONFIRMED_ACTION_TAG) == CONFIRMED_ACTION_TAG
    requires Counts(d, AllTags(rows)) && AreClusters(lower, d.count, clusters) && ChoosesMembers(choose, clusters)
    requires Counts(d', AllTags(RewrittenRows(MemberMap(Accepted(clusters, choose)), rows)))
    requires AreClusters(lower, d'.count, clusters')
    ensures clusters' == [] <==> forall c | c in clusters :: choose(c).Some?
  {
    hide MemberMap, AllTags, RewrittenRows, Accepted, Counts, IsComponent, Related, Apart;
    if clusters' != [] {
      var v := SomeMember(lower, d'.count, clusters'[0]);
      SecondRunFindsTheSkipped(lower, rows, d, clusters, choose, d', clusters', v);
    }
    if c :| c in clusters && choose(c).None? {
      var v := SomeMember(lower, d.count, c);
      SecondRunFindsTheSkipped(lower, rows, d, clusters, choose, d', clusters', v);
      assert IsSkipped(clusters, choose, v);
    }
  }

  lemma SomeMember(lower: string -> string, count: map<string, nat>, c: Cluster) returns (v: string)
    requires IsComponent(lower, count, c)
    ensures v in c.members
  {
    hide Related, Preferred;
    v := c.members[0];
  }

  datatype AuditEntry = AuditEntry(id: string, oldTags: seq<string>, newTags: seq<string>, oldText: string)

  /** The log of what the store now holds instead of the rows it held. */
  function Audit(rows: seq<Row>, stored: seq<Row>): seq<AuditEntry>
    requires |stored| <= |rows|
  {
    if stored == [] then [] else
      var n := |stored| - 1;
      Audit(rows, stored[..n])
      + (if stored[n] == rows[n] then [] else [AuditEntry(rows[n].id, rows[n].tags, stored[n].tags, rows[n].text)])
  }

  /** The rows that should change and did not. */
  function Unwritten(table: map<string, string>, rows: seq<Row>, stored: seq<Row>): nat
    requires |stored| <= |rows|
  {
    if stored == [] then 0 else
      var n := |stored| - 1;
      Unwritten(table, rows, stored[..n]) + (if stored[n] == RewrittenRows(table, rows)[n] then 0 else 1)
  }

  /** The entries stand for the rows at the places `at`, in order: those that the store holds changed,
      each with its old and its new tags. */
  ghost predicate IsLog(rows: seq<Row>, stored: seq<Row>, audit: seq<AuditEntry>, at: seq<int>)
    requires |stored| <= |rows|
  {
    && |at| == |audit| && (forall i, j | 0 <= i < j < |at| :: at[i] < at[j])
    && (forall k | 0 <= k < |at| ::
          && 0 <= at[k] < |stored| && stored[at[k]] != rows[at[k]]
          && audit[k].id == rows[at[k]].id && audit[k].oldText == rows[at[k]].text
          && audit[k].oldTags == rows[at[k]].tags && audit[k].newTags == stored[at[k]].tags)
    && (forall i | 0 <= i < |stored| && stored[i] != rows[i] :: i in at)
  }

  lemma LogGrows(rows: seq<Row>, stored: seq<Row>, next: Row, audit: seq<AuditEntry>, at: seq<int>)
    requires |stored| < |rows| && IsLog(rows, stored, audit, at)
    ensures var n := |stored|;
            if next == rows[n] then IsLog(rows, stored + [next], audit, at)
            else IsLog(rows, stored + [next],
                       audit + [AuditEntry(rows[n].id, rows[n].tags, next.tags, rows[n].text)], at + [n])
  {
    var longer := stored + [next];
    assert forall i | 0 <= i < |stored| :: longer[i] == stored[i];
    assert longer[|stored|] == next;
  }

  lemma {:induction false} AuditIsLog(rows: seq<Row>, stored: seq<Row>) returns (at: seq<int>)
    requires |stored| <= |rows|
    ensures IsLog(rows, stored, Audit(rows, stored), at)
  {
    hide IsLog, Audit;
    NothingStored(map[], rows);
    if stored == [] {
      at := [];
      assert IsLog(rows, [], [], []) by { NothingLogged(rows); }
    } else {
      var n := |stored| - 1;
      var front := stored[..n];
      at := AuditIsLog(rows, front);
      assert stored == front + [stored[n]];
      LogGrows(rows, front, stored[n], Audit(rows, front), at);
      StoredOneMore(map[], rows, front, stored[n]);
      if stored[n] != rows[n] {
        at := at + [n];
      } else {
        assert Audit(rows, front) + [] == Audit(rows, front);
      }
    }
  }

  lemma NothingLogged(rows: seq<Row>)
    ensures IsLog(rows, [], [], [])
  {
  }

  /** The places among the first n where the store does not hold the rewritten row. */
  ghost function FailedAt(table: map<string, string>, rows: seq<Row>, stored: seq<Row>, n: nat): set<int>
    requires n <= |stored| <= |rows|
  {
    set i | 0 <= i < n && stored[i] != RewrittenRows(table, rows)[i]
  }

  lemma {:induction false} UnwrittenExactly(table: map<string, string>, rows: seq<Row>, stored: seq<Row>, n: nat)
    requires n <= |stored| <= |rows|
    ensures Unwritten(table, rows, stored[..n]) == |FailedAt(table, rows, stored, n)|
  {
    hide RewrittenRows, Unwritten;
    NothingStored(table, rows);
    if n == 0 {
      assert stored[..0] == [];
    } else {
      UnwrittenExactly(table, rows, stored, n - 1);
      assert stored[..n] == stored[..n - 1] + [stored[n - 1]];
      StoredOneMore(table, rows, stored[..n - 1], stored[n - 1]);
      OneMoreFailed(table, rows, stored, n - 1);
    }
  }

  lemma OneMoreFailed(table: map<string, string>, rows: seq<Row>, stored: seq<Row>, n: nat)
    requires n < |stored| <= |rows|
    ensures |FailedAt(table, rows, stored, n + 1)|
         == |FailedAt(table, rows, stored, n)| + (if stored[n] == RewrittenRows(table, rows)[n] then 0 else 1)
  {
    hide RewrittenRows;
    var before := FailedAt(table, rows, stored, n);
    assert FailedAt(table, rows, stored, n + 1)
        == if stored[n] == RewrittenRows(table, rows)[n] then before else before + {n};
  }

  /** `writable[i]` is what the store answers to the write of row i. */
  method ApplyRewrites(rows: seq<Row>, clusters: seq<Cluster>, writable: seq<bool>)
    returns (stored: seq<Row>, success: nat, failure: nat, audit: seq<AuditEntry>)
    requires |writable| == |rows|
    ensures |stored| == |rows|
    ensures forall i | 0 <= i < |rows| ::
              stored[i] == if writable[i] then RewrittenRows(MemberMap(clusters), rows)[i] else rows[i]
    ensures audit == Audit(rows, stored) && success == |audit|
    ensures failure == Unwritten(MemberMap(clusters), rows, stored)
    ensures exists at :: IsLog(rows, stored, audit, at)
    ensures failure == |FailedAt(MemberMap(clusters), rows, stored, |rows|)|
  {
    hide MemberMap, RowResult, RewrittenRows, Audit, Unwritten, IsLog, FailedAt;
    NothingStored(MemberMap(clusters), rows);
    stored, success, failure, audit := [], 0, 0, [];
    ghost var table := MemberMap(clusters);
    for i := 0 to |rows|
      invariant |stored| == i
      invariant forall k | 0 <= k < i :: stored[k] == if writable[k] then RewrittenRows(table, rows)[k] else rows[k]
      invariant audit == Audit(rows, stored) && success == |audit|
      invariant failure == Unwritten(table, rows, stored)
    {
      var newTags, changed := ApplyClusterToRow(rows[i].tags, clusters);
      RewrittenRow(table, rows, i);
      ghost var next := if changed && writable[i] then rows[i].(tags := newTags) else rows[i];
      StoredOneMore(table, rows, stored, next);
      if !changed {
        stored := stored + [rows[i]];
        continue;
      }
      if writable[i] {
        stored := stored + [rows[i].(tags := newTags)];
        success := success + 1;
        audit := audit + [AuditEntry(rows[i].id, rows[i].tags, newTags, rows[i].text)];
      } else {
        stored := stored + [rows[i]];
        failure := failure + 1;
      }
    }
    ghost var at := AuditIsLog(rows, stored);
    UnwrittenExactly(table, rows, stored, |rows|);
    assert stored[..|rows|] == stored;
  }

  lemma NothingStored(table: map<string, string>, rows: seq<Row>)
    ensures Audit(rows, []) == [] && Unwritten(table, rows, []) == 0
  {
  }

  lemma StoredOneMore(table: map<string, string>, rows: seq<Row>, stored: seq<Row>, next: Row)
    requires |stored| < |rows|
    ensures var n := |stored|;
            && Audit(rows, stored + [next])
               == Audit(rows, stored)
                  + (if next == rows[n] then [] else [AuditEntry(rows[n].id, rows[n].tags, next.tags, rows[n].text)])
            && Unwritten(table, rows, stored + [next])
               == Unwritten(table, rows, stored) + (if next == RewrittenRows(table, rows)[n] then 0 else 1)
  {
    hide RewrittenRows;
    assert (stored + [next])[..|stored|] == stored;
  }

  lemma {:induction false} AllWritten(table: map<string, string>, rows: seq<Row>, n: nat)
    requires n <= |rows|
    ensures Unwritten(table, rows, RewrittenRows(table, rows)[..n]) == 0
  {
    hide RewrittenRows;
    if n > 0 {
      assert RewrittenRows(table, rows)[..n][..n - 1] == RewrittenRows(table, rows)[..n - 1];
      AllWritten(table, rows, n - 1);
    }
  }

  lemma SameCounts(a: Distribution, b: Distribution, tags: seq<string>)
    requires Counts(a, tags) && Counts(b, tags)
    ensures a.count == b.count
  {
    forall t | t in a.count
      ensures t in b.count && a.count[t] == b.count[t]
    {
      assert CountOf(a.count, t) == CountOf(b.count, t);
    }
  }

  /** Two detections on the same counts find the same tags. */
  lemma DetectionsAgree(lower: string -> string, count: map<string, nat>, a: seq<Cluster>, b: seq<Cluster>, v: string)
    requires AreClusters(lower, count, a) && AreClusters(lower, count, b) && InSome(a, v)
    ensures InSome(b, v)
  {
    hide IsComponent, Apart, Related;
    var i :| 0 <= i < |a| && v in a[i].members;
    var w := OtherMember(lower, count, a[i], v);
  }

  lemma InSomeMeansIn(clusters: seq<Cluster>, v: string)
    ensures InSome(clusters, v) <==> exists c :: c in clusters && v in c.members
  {
    if c :| c in clusters && v in c.members {
      var i :| 0 <= i < |clusters| && clusters[i] == c;
      assert v in clusters[i].members;
    }
  }

  /** What a second detection on the stored rows finds is what was skipped. */
  ghost predicate OnlySkippedIsLeft(lower: string -> string, stored: seq<Row>, clusters: seq<Cluster>, choose: Choice) {
    forall d, found, v | Counts(d, AllTags(stored)) && AreClusters(lower, d.count, found) ::
      InSome(found, v) <==> IsSkipped(clusters, choose, v)
  }

  lemma {:induction false} NoneAccepted(clusters: seq<Cluster>, choose: Choice)
    requires Accepted(clusters, choose) == []
    ensures forall c | c in clusters :: choose(c).None?
  {
    if clusters != [] {
      NoneAccepted(clusters[..|clusters| - 1], choose);
    }
  }

  lemma NothingAcceptedNothingChanged(lower: string -> string, rows: seq<Row>, d: Distribution, clusters: seq<Cluster>,
                                      choose: Choice)
    requires Counts(d, AllTags(rows)) && AreClusters(lower, d.count, clusters) && Accepted(clusters, choose) == []
    ensures OnlySkippedIsLeft(lower, rows, clusters, choose)
  {
    hide AllTags, AreClusters, Counts, Accepted, InSome;
    NoneAccepted(clusters, choose);
    forall d', found, v | Counts(d', AllTags(rows)) && AreClusters(lower, d'.count, found)
      ensures InSome(found, v) <==> IsSkipped(clusters, choose, v)
    {
      SameCounts(d, d', AllTags(rows));
      if InSome(found, v) {
        DetectionsAgree(lower, d.count, found, clusters, v);
      }
      InSomeMeansIn(clusters, v);
      if InSome(clusters, v) {
        DetectionsAgree(lower, d.count, clusters, found, v);
      }
    }
  }

  lemma AcceptedAreApplied(lower: string -> string, rows: seq<Row>, d: Distribution, clusters: seq<Cluster>,
                           choose: Choice)
    requires lower(CONFIRMED_ACTION_TAG) == CONFIRMED_ACTION_TAG
    requires Counts(d, AllTags(rows)) && AreClusters(lower, d.count, clusters) && ChoosesMembers(choose, clusters)
    ensures OnlySkippedIsLeft(lower, RewrittenRows(MemberMap(Accepted(clusters, choose)), rows), clusters, choose)
  {
    hide AllTags, AreClusters, Counts, Accepted, InSome, MemberMap, RewrittenRows, IsSkipped, ChoosesMembers;
    var stored := RewrittenRows(MemberMap(Accepted(clusters, choose)), rows);
    forall d', found, v | Counts(d', AllTags(stored)) && AreClusters(lower, d'.count, found)
      ensures InSome(found, v) <==> IsSkipped(clusters, choose, v)
    {
      SecondRunFindsTheSkipped(lower, rows, d, clusters, choose, d', found, v);
    }
  }

  /** `_run_for_user` with `--apply`: the operator chooses, or without prompts every proposal is taken.
      When every write succeeds, the next run finds exactly what was skipped. */
  method RunForUser(rows: seq<Row>, choose: Choice, writable: seq<bool>, lower: string -> string)
    returns (clusters: seq<Cluster>, stored: seq<Row>, success: nat, failure: nat)
    requires |writable| == |rows| && lower(CONFIRMED_ACTION_TAG) == CONFIRMED_ACTION_TAG
    requires forall c: Cluster | choose(c).Some? :: choose(c).value in c.members
    ensures |stored| == |rows| && forall i | 0 <= i < |rows| :: stored[i] == rows[i].(tags := stored[i].tags)
    ensures exists d :: Counts(d, AllTags(rows)) && AreClusters(lower, d.count, clusters)
                        && GroupsByTheRules(lower, d.count.Keys, clusters)
    ensures (forall i | 0 <= i < |rows| :: writable[i]) ==>
              failure == 0 && OnlySkippedIsLeft(lower, stored, clusters, choose)
  {
    hide *;
    var distribution := ComputeDistribution(rows);
    assert distribution.Valid() by { CountsIsValid(distribution, AllTags(rows)); }
    clusters := IdentifyClusters(distribution, lower);
    assert ChoosesMembers(choose, clusters) by { MembersAreChosen(choose, clusters); }
    var accepted := AcceptClusters(clusters, choose);
    if accepted == [] {
      NothingAcceptedNothingChanged(lower, rows, distribution, clusters, choose);
      stored, success, failure := rows, 0, 0;
    } else {
      var audit;
      stored, success, failure, audit := ApplyRewrites(rows, accepted, writable);
      OnlyTagsChange(MemberMap(accepted), rows);
      if forall i | 0 <= i < |rows| :: writable[i] {
        assert stored == RewrittenRows(MemberMap(accepted), rows);
        AllWritten(MemberMap(accepted), rows, |rows|);
        assert rows[..|rows|] == rows && stored[..|rows|] == stored;
        AcceptedAreApplied(lower, rows, distribution, clusters, choose);
      }
    }
  }

  lemma CountsIsValid(d: Distribution, tags: seq<string>)
    requires Counts(d, tags)
    ensures d.Valid()
  {
  }

  lemma MembersAreChosen(choose: Choice, clusters: seq<Cluster>)
    requires forall c: Cluster | choose(c).Some? :: choose(c).value in c.members
    ensures ChoosesMembers(choose, clusters)
  {
  }

  lemma OnlyTagsChange(table: map<string, string>, rows: seq<Row>)
    ensures forall i | 0 <= i < |rows| ::
              RewrittenRows(table, rows)[i] == rows[i].(tags := RewrittenRows(table, rows)[i].tags)
  {
    hide RowResult;
  }
}

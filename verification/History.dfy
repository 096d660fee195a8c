/** Newest-first history scans (src/kai/history.py, lines 86 to 89, 322 to 406, 505 to 595). */
module History {
  import opened Options
  import opened Text
  import opened Lexicographic

  /** One JSONL record; `chatId` is absent from records older than per-chat storage. */
  datatype Record = Record(chatId: Maybe<int>, dir: string, text: string, ts: string)

  datatype Line = Blank | Malformed | Json(record: Record)

  datatype File = Unreadable | Readable(lines: seq<Line>)

  /** The files of one day. A list of days runs from the newest to the oldest. */
  type Day = seq<File>

  /** What a scan keeps of a record, if anything. */
  type Sieve = Record -> Maybe<Record>

  /** `re.fullmatch(r"\[(stopped by user|no response|error: .+)\]", text, re.DOTALL)` */
  predicate IsSynthetic(text: string) {
    || text == "[stopped by user]" || text == "[no response]"
    || (|text| >= 10 && text[..8] == "[error: " && text[|text| - 1] == ']')
  }

  /** What `get_recent_pairs` keeps: records of exactly this chat with visible text, without the
      placeholders of failed turns. */
  function PairSieve(chatId: int): Sieve {
    (r: Record) =>
      var text := Strip(r.text);
      if r.chatId != Some(chatId) || text == "" || (r.dir == "assistant" && IsSynthetic(text)) then None
      else Some(r.(text := text))
  }

  /** What `get_recent_history` keeps: everything but the records of another chat. */
  function HistorySieve(chatId: Maybe<int>): Sieve {
    (r: Record) => if chatId.Some? && r.chatId.Some? && r.chatId != chatId then None else Some(r)
  }

  // ----- one day

  function Sift(lines: seq<Line>, sieve: Sieve): seq<Record> {
    if lines == [] then [] else
      var n := |lines| - 1;
      Sift(lines[..n], sieve)
      + (if lines[n].Json? && sieve(lines[n].record).Some? then [sieve(lines[n].record).value] else [])
  }

  function SiftFiles(files: Day, sieve: Sieve): seq<Record> {
    if files == [] then [] else
      var n := |files| - 1;
      SiftFiles(files[..n], sieve) + (if files[n].Readable? then Sift(files[n].lines, sieve) else [])
  }

  function InsertByTs(r: Record, rs: seq<Record>): seq<Record> {
    if rs == [] then [r]
    else if Leq(rs[|rs| - 1].ts, r.ts) then rs + [r]
    else InsertByTs(r, rs[..|rs| - 1]) + [rs[|rs| - 1]]
  }

  /** `records.sort(key=lambda record: str(record.get("ts", "")))` */
  function SortByTs(rs: seq<Record>): seq<Record> {
    if rs == [] then [] else InsertByTs(rs[|rs| - 1], SortByTs(rs[..|rs| - 1]))
  }

  /** The records of one time stamp, in their order. */
  function At(rs: seq<Record>, ts: string): seq<Record> {
    if rs == [] then [] else At(rs[..|rs| - 1], ts) + (if rs[|rs| - 1].ts == ts then [rs[|rs| - 1]] else [])
  }

  ghost predicate ByTs(rs: seq<Record>) {
    forall i, j | 0 <= i < j < |rs| :: Leq(rs[i].ts, rs[j].ts)
  }

  lemma AtSnoc(rs: seq<Record>, r: Record, ts: string)
    ensures At(rs + [r], ts) == if r.ts == ts then At(rs, ts) + [r] else At(rs, ts)
  {
    assert (rs + [r])[..|rs|] == rs;
  }

  lemma {:induction false} InsertKeepsAll(r: Record, rs: seq<Record>)
    ensures multiset(InsertByTs(r, rs)) == multiset(rs) + multiset{r}
  {
    hide Leq;
    if rs != [] {
      var front, last := rs[..|rs| - 1], rs[|rs| - 1];
      assert rs == front + [last];
      InsertKeepsAll(r, front);
    }
  }

  lemma {:induction false} InsertKeepsOrder(r: Record, rs: seq<Record>)
    requires ByTs(rs)
    ensures ByTs(InsertByTs(r, rs))
  {
    hide Leq;
    if rs == [] {
    } else {
      var front, last := rs[..|rs| - 1], rs[|rs| - 1];
      Total(last.ts, r.ts);
      if Leq(last.ts, r.ts) {
        forall i | 0 <= i < |rs|
          ensures Leq(rs[i].ts, r.ts)
        {
          if i < |front| {
            Transitive(rs[i].ts, last.ts, r.ts);
          }
        }
      } else {
        InsertKeepsOrder(r, front);
        InsertKeepsAll(r, front);
        var inner := InsertByTs(r, front);
        forall i | 0 <= i < |inner|
          ensures Leq(inner[i].ts, last.ts)
        {
          assert inner[i] in multiset(inner);
          assert inner[i] in front || inner[i] == r;
        }
      }
    }
  }

  /** A record is put after those of its own time stamp. */
  lemma {:induction false} InsertKeepsTies(r: Record, rs: seq<Record>, ts: string)
    ensures At(InsertByTs(r, rs), ts) == if r.ts == ts then At(rs, ts) + [r] else At(rs, ts)
  {
    hide Leq, At;
    AtSnoc(rs, r, ts);
    if rs == [] {
      assert rs + [r] == [r];
    } else {
      var front, last := rs[..|rs| - 1], rs[|rs| - 1];
      Reflexive(r.ts);
      if !Leq(last.ts, r.ts) {
        assert rs == front + [last] && r.ts != last.ts;
        InsertKeepsTies(r, front, ts);
        AtSnoc(InsertByTs(r, front), last, ts);
        AtSnoc(front, last, ts);
      }
    }
  }

  /** The sort orders, loses nothing and keeps records of one time stamp in their order. */
  lemma {:induction false} SortIsStable(rs: seq<Record>, ts: string)
    ensures ByTs(SortByTs(rs)) && multiset(SortByTs(rs)) == multiset(rs) && At(SortByTs(rs), ts) == At(rs, ts)
  {
    hide InsertByTs, At, ByTs;
    if rs == [] {
      NothingToSort();
    } else {
      var front, last := rs[..|rs| - 1], rs[|rs| - 1];
      SortIsStable(front, ts);
      AtSnoc(front, last, ts);
      InsertKeepsOrder(last, SortByTs(front));
      InsertKeepsAll(last, SortByTs(front));
      InsertKeepsTies(last, SortByTs(front), ts);
      assert rs == front + [last];
    }
  }

  lemma NothingToSort()
    ensures ByTs([])
  {
  }

  function DayRecords(day: Day, sieve: Sieve): seq<Record> {
    SortByTs(SiftFiles(day, sieve))
  }

  /** The inner loops of both scans. */
  method ReadDay(day: Day, sieve: Sieve) returns (records: seq<Record>)
    ensures records == DayRecords(day, sieve)
  {
    records := [];
    for i := 0 to |day|
      invariant records == SiftFiles(day[..i], sieve)
    {
      assert day[..i + 1][..i] == day[..i];
      if day[i].Unreadable? {
        continue;
      }
      var kept := ReadFile(day[i].lines, sieve);
      records := records + kept;
    }
    assert day[..|day|] == day;
    records := SortByTs(records);
  }

  method ReadFile(lines: seq<Line>, sieve: Sieve) returns (kept: seq<Record>)
    ensures kept == Sift(lines, sieve)
  {
    kept := [];
    for j := 0 to |lines|
      invariant kept == Sift(lines[..j], sieve)
    {
      assert lines[..j + 1][..j] == lines[..j];
      match lines[j]
      case Blank => continue;
      case Malformed => continue;
      case Json(record) =>
        var s := sieve(record);
        if s.None? {
          continue;
        }
        kept := kept + [s.value];
    }
    assert lines[..|lines|] == lines;
  }

  // ----- all days

  /** The naive scan: the records of all days, the oldest first. */
  function AllRecords(days: seq<Day>, sieve: Sieve): seq<Record> {
    if days == [] then []
    else DayRecords(days[|days| - 1], sieve) + AllRecords(days[..|days| - 1], sieve)
  }

  function LastN<T>(xs: seq<T>, n: int): seq<T> {
    if n <= 0 then [] else if |xs| <= n then xs else xs[|xs| - n..]
  }

  /** The last n of them, or all if there are fewer. */
  lemma LastNExactly<T>(xs: seq<T>, n: int)
    ensures IsSuffix(LastN(xs, n), xs)
    ensures |LastN(xs, n)| == if n <= 0 then 0 else if n < |xs| then n else |xs|
  {
  }

  ghost predicate IsSuffix<T>(s: seq<T>, xs: seq<T>) {
    |s| <= |xs| && xs[|xs| - |s|..] == s
  }

  lemma SuffixHoldsLast<T>(s: seq<T>, xs: seq<T>, n: int)
    requires IsSuffix(s, xs) && |s| >= n
    ensures LastN(xs, n) == LastN(s, n)
  {
    if n > 0 {
      assert xs[|xs| - n..] == xs[|xs| - |s|..][|s| - n..];
    }
  }

  /** Older days come first, and a day's records are all its own. */
  lemma {:induction false} DaysRunBackwards(newer: seq<Day>, older: seq<Day>, sieve: Sieve)
    ensures AllRecords(newer + older, sieve) == AllRecords(older, sieve) + AllRecords(newer, sieve)
    ensures forall day :: AllRecords([day], sieve) == DayRecords(day, sieve)
  {
    hide DayRecords;
    assert forall day: Day :: [day][..0] == [] && AllRecords([], sieve) == [];
    if older == [] {
      assert newer + older == newer;
    } else {
      var n := |older| - 1;
      assert (newer + older)[..|newer| + n] == newer + older[..n];
      DaysRunBackwards(newer, older[..n], sieve);
    }
  }

  /** The newest days hold the end of the whole history. */
  lemma {:induction false} NewestDaysAreSuffix(days: seq<Day>, i: nat, sieve: Sieve)
    requires i <= |days|
    ensures exists older :: AllRecords(days, sieve) == older + AllRecords(days[..i], sieve)
    decreases |days|
  {
    hide DayRecords;
    if i == |days| {
      assert days[..i] == days;
      assert AllRecords(days, sieve) == [] + AllRecords(days[..i], sieve);
    } else {
      var n := |days| - 1;
      NewestDaysAreSuffix(days[..n], i, sieve);
      assert days[..n][..i] == days[..i];
      var older :| AllRecords(days[..n], sieve) == older + AllRecords(days[..i], sieve);
      assert AllRecords(days, sieve) == (DayRecords(days[n], sieve) + older) + AllRecords(days[..i], sieve);
    }
  }

  // ----- pairs

  type Pair = (string, string)

  predicate IsTurn(r: Record) {
    r.dir == "user" || r.dir == "assistant"
  }

  /** The records of both directions, all others removed. */
  function Turns(records: seq<Record>): seq<Record> {
    if records == [] then [] else (if IsTurn(records[0]) then [records[0]] else []) + Turns(records[1..])
  }

  /** The neighbours that are a user turn and the assistant turn after it, in order. */
  function AdjacentPairs(turns: seq<Record>): seq<Pair> {
    if |turns| < 2 then [] else
      (if turns[0].dir == "user" && turns[1].dir == "assistant" then [(turns[0].text, turns[1].text)] else [])
      + AdjacentPairs(turns[1..])
  }

  lemma {:induction false} TurnsConcat(a: seq<Record>, b: seq<Record>)
    ensures Turns(a + b) == Turns(a) + Turns(b)
  {
    hide IsTurn, Turns;
    if a == [] {
      assert a + b == b;
      NoTurns();
    } else {
      assert a + b == [a[0]] + (a[1..] + b) && a == [a[0]] + a[1..];
      TurnsCons(a[0], a[1..] + b);
      TurnsCons(a[0], a[1..]);
      TurnsConcat(a[1..], b);
    }
  }

  lemma TurnsCons(r: Record, rest: seq<Record>)
    ensures Turns([r] + rest) == (if IsTurn(r) then [r] else []) + Turns(rest)
  {
    hide IsTurn;
    assert ([r] + rest)[1..] == rest;
  }

  lemma NoTurns()
    ensures Turns([]) == []
  {
  }

  /** Older turns only ever add pairs at the front. */
  lemma {:induction false} OlderPairsComeFirst(a: seq<Record>, b: seq<Record>)
    ensures IsSuffix(AdjacentPairs(b), AdjacentPairs(a + b))
  {
    if a == [] {
      assert a + b == b;
    } else {
      assert (a + b)[1..] == a[1..] + b;
      OlderPairsComeFirst(a[1..], b);
      var rest, all := AdjacentPairs(a[1..] + b), AdjacentPairs(a + b);
      if |a + b| >= 2 {
        assert all[|all| - |rest|..] == rest;
      }
    }
  }

  lemma PairsAfterUser(u: Record, rest: seq<Record>)
    requires u.dir == "user"
    ensures rest == [] ==> AdjacentPairs([u] + rest) == []
    ensures rest != [] ==> AdjacentPairs([u] + rest)
                           == (if rest[0].dir == "assistant" then [(u.text, rest[0].text)] else [])
                               + AdjacentPairs(rest)
  {
    assert ([u] + rest)[1..] == rest;
  }

  lemma PairsAfterAssistant(a: Record, rest: seq<Record>)
    requires a.dir == "assistant"
    ensures AdjacentPairs([a] + rest) == AdjacentPairs(rest)
  {
    assert ([a] + rest)[1..] == rest;
  }

  function Pending(user: Maybe<string>): seq<Record> {
    if user.None? then [] else [Record(None, "user", user.value, "")]
  }

  lemma PairingStep(user: Maybe<string>, rec: Record, rest: seq<Record>)
    ensures var all := AdjacentPairs(Pending(user) + Turns([rec] + rest));
            if rec.dir == "user" then all == AdjacentPairs(Pending(Some(rec.text)) + Turns(rest))
            else if rec.dir == "assistant" then
              all == (if user.Some? then [(user.value, rec.text)] else []) + AdjacentPairs(Turns(rest))
            else all == AdjacentPairs(Pending(user) + Turns(rest))
  {
    var turns := Turns(rest);
    assert ([rec] + rest)[1..] == rest;
    assert Turns([rec] + rest) == if IsTurn(rec) then [rec] + turns else turns;
    if rec.dir == "user" {
      var slot := Record(None, "user", rec.text, "");
      PairsAfterUser(rec, turns);
      PairsAfterUser(slot, turns);
      if user.Some? {
        PairsAfterUser(Pending(user)[0], [rec] + turns);
      } else {
        assert Pending(user) + ([rec] + turns) == [rec] + turns;
      }
    } else if rec.dir == "assistant" {
      PairsAfterAssistant(rec, turns);
      if user.Some? {
        PairsAfterUser(Pending(user)[0], [rec] + turns);
      } else {
        assert Pending(user) + ([rec] + turns) == [rec] + turns;
      }
    }
  }

  /** A user record and the next record of either side, which is the assistant's. */
  ghost predicate IsExchange(records: seq<Record>, i: int, j: int) {
    && 0 <= i < j < |records| && records[i].dir == "user" && records[j].dir == "assistant"
    && forall k | i < k < j :: !IsTurn(records[k])
  }

  /** The pairs are the texts of the exchanges before position n, each once and in order. */
  ghost predicate AreExchanges(records: seq<Record>, n: nat, pairs: seq<Pair>, at: seq<(int, int)>) {
    && |at| == |pairs|
    && (forall m | 0 <= m < |at| :: IsExchange(records, at[m].0, at[m].1) && at[m].1 < n
                                    && pairs[m] == (records[at[m].0].text, records[at[m].1].text))
    && (forall m | 0 < m < |at| :: at[m - 1].1 < at[m].0)
    && (forall i, j | IsExchange(records, i, j) && j < n :: (i, j) in at)
  }

  /** The slot holds the user record at `slot` exactly when no reply has come since. */
  ghost predicate SlotHolds(records: seq<Record>, n: nat, user: Maybe<string>, slot: int) {
    if user.Some? then
      && 0 <= slot < n <= |records| && records[slot].dir == "user" && records[slot].text == user.value
      && forall k | slot < k < n :: !IsTurn(records[k])
    else forall i, j | IsExchange(records, i, j) && j >= n :: i >= n
  }

  lemma SlotStep(records: seq<Record>, n: nat, user: Maybe<string>, slot: int)
    requires n < |records| && SlotHolds(records, n, user, slot)
    ensures var r := records[n];
            if r.dir == "user" then SlotHolds(records, n + 1, Some(r.text), n)
            else if r.dir == "assistant" then SlotHolds(records, n + 1, None, slot)
            else SlotHolds(records, n + 1, user, slot)
  {
  }

  lemma NoExchangeEndsAt(records: seq<Record>, n: nat, user: Maybe<string>, slot: int)
    requires n < |records| && SlotHolds(records, n, user, slot)
    ensures records[n].dir != "assistant" || user.None? ==> forall i :: !IsExchange(records, i, n)
    ensures records[n].dir == "assistant" && user.Some? ==> forall i :: IsExchange(records, i, n) <==> i == slot
  {
  }

  lemma ExchangesStay(records: seq<Record>, n: nat, pairs: seq<Pair>, at: seq<(int, int)>)
    requires n < |records| && AreExchanges(records, n, pairs, at) && forall i :: !IsExchange(records, i, n)
    ensures AreExchanges(records, n + 1, pairs, at)
  {
    hide IsExchange;
  }

  lemma ExchangeAdded(records: seq<Record>, n: nat, slot: int, pairs: seq<Pair>, at: seq<(int, int)>)
    requires n < |records| && AreExchanges(records, n, pairs, at)
    requires 0 <= slot < n && forall i :: IsExchange(records, i, n) <==> i == slot
    requires |at| > 0 ==> at[|at| - 1].1 < slot
    ensures AreExchanges(records, n + 1, pairs + [(records[slot].text, records[n].text)], at + [(slot, n)])
  {
    hide IsExchange;
    forall i, j | IsExchange(records, i, j) && j < n + 1
      ensures (i, j) in at + [(slot, n)]
    {
      if j < n {
        assert (i, j) in at;
      }
    }
  }

  /** The one-slot scan finds exactly the adjacent pairs. */
  method PairRecordsChronologically(records: seq<Record>) returns (pairs: seq<Pair>)
    ensures pairs == AdjacentPairs(Turns(records))
    ensures exists at :: AreExchanges(records, |records|, pairs, at)
  {
    hide AdjacentPairs, Turns, AreExchanges, SlotHolds, IsExchange;
    pairs := [];
    var pendingUser: Maybe<string> := None;
    ghost var at: seq<(int, int)> := [];
    ghost var slot := 0;
    NoExchangesYet(records);
    assert records[0..] == records && Pending(None) + Turns(records) == Turns(records);
    for i := 0 to |records|
      invariant pairs + AdjacentPairs(Pending(pendingUser) + Turns(records[i..])) == AdjacentPairs(Turns(records))
      invariant SlotHolds(records, i, pendingUser, slot) && AreExchanges(records, i, pairs, at)
      invariant pendingUser.Some? && |at| > 0 ==> at[|at| - 1].1 < slot
      invariant forall m | 0 <= m < |at| :: at[m].1 < i
    {
      var rec := records[i];
      assert records[i..] == [rec] + records[i + 1..];
      PairingStep(pendingUser, rec, records[i + 1..]);
      SlotStep(records, i, pendingUser, slot);
      NoExchangeEndsAt(records, i, pendingUser, slot);
      if rec.dir == "assistant" && pendingUser.Some? {
        SlotText(records, i, pendingUser, slot);
        ExchangeAdded(records, i, slot, pairs, at);
      } else {
        ExchangesStay(records, i, pairs, at);
      }
      if rec.dir == "user" {
        pendingUser := Some(rec.text);
        slot := i;
      } else if rec.dir == "assistant" && pendingUser.Some? {
        pairs := pairs + [(pendingUser.value, rec.text)];
        at := at + [(slot, i)];
        pendingUser := None;
      }
      assert Pending(None) + Turns(records[i + 1..]) == Turns(records[i + 1..]);
    }
    NothingLeftToPair(pendingUser);
  }

  lemma SlotText(records: seq<Record>, n: nat, user: Maybe<string>, slot: int)
    requires SlotHolds(records, n, user, slot) && user.Some?
    ensures 0 <= slot < n <= |records| && records[slot].text == user.value
  {
  }

  lemma NoExchangesYet(records: seq<Record>)
    ensures SlotHolds(records, 0, None, 0) && AreExchanges(records, 0, [], [])
  {
  }

  lemma NothingLeftToPair(user: Maybe<string>)
    ensures AdjacentPairs(Pending(user) + Turns([])) == []
  {
  }

  // ----- where the records come from

  ghost predicate IsWritten(days: seq<Day>, r: Record) {
    exists day, file :: day in days && file in day && file.Readable? && Json(r) in file.lines
  }

  lemma {:induction false} SiftedIsWritten(lines: seq<Line>, sieve: Sieve, r: Record)
    requires r in Sift(lines, sieve)
    ensures exists w :: Json(w) in lines && sieve(w) == Some(r)
  {
    var n := |lines| - 1;
    if r in Sift(lines[..n], sieve) {
      SiftedIsWritten(lines[..n], sieve, r);
    } else {
      assert lines[n] in lines;
    }
  }

  lemma {:induction false} FileIsWritten(files: Day, sieve: Sieve, r: Record)
    requires r in SiftFiles(files, sieve)
    ensures exists w, file :: file in files && file.Readable? && Json(w) in file.lines && sieve(w) == Some(r)
  {
    hide Sift;
    var n := |files| - 1;
    if r in SiftFiles(files[..n], sieve) {
      FileIsWritten(files[..n], sieve, r);
    } else {
      assert files[n] in files;
      SiftedIsWritten(files[n].lines, sieve, r);
    }
  }

  lemma {:induction false} RecordIsWritten(days: seq<Day>, sieve: Sieve, r: Record) returns (w: Record)
    requires r in AllRecords(days, sieve)
    ensures IsWritten(days, w) && sieve(w) == Some(r)
  {
    hide SiftFiles, SortByTs;
    var n := |days| - 1;
    if r in AllRecords(days[..n], sieve) {
      w := RecordIsWritten(days[..n], sieve, r);
      var day, file :| day in days[..n] && file in day && file.Readable? && Json(w) in file.lines;
      assert day in days;
    } else {
      SortIsStable(SiftFiles(days[n], sieve), "");
      assert r in multiset(SiftFiles(days[n], sieve));
      FileIsWritten(days[n], sieve, r);
      var v, file :| file in days[n] && file.Readable? && Json(v) in file.lines && sieve(v) == Some(r);
      assert days[n] in days;
      w := v;
    }
  }

  lemma {:induction false} SiftedIsKept(lines: seq<Line>, sieve: Sieve, w: Record)
    requires Json(w) in lines && sieve(w).Some?
    ensures sieve(w).value in Sift(lines, sieve)
  {
    var n := |lines| - 1;
    if lines[n] != Json(w) {
      SiftedIsKept(lines[..n], sieve, w);
    }
  }

  lemma {:induction false} FileIsKept(files: Day, sieve: Sieve, file: File, w: Record)
    requires file in files && file.Readable? && Json(w) in file.lines && sieve(w).Some?
    ensures sieve(w).value in SiftFiles(files, sieve)
  {
    hide Sift;
    var n := |files| - 1;
    if files[n] == file {
      SiftedIsKept(file.lines, sieve, w);
    } else {
      FileIsKept(files[..n], sieve, file, w);
    }
  }

  /** What is written and passes the sieve is read. */
  lemma {:induction false} WrittenIsRead(days: seq<Day>, sieve: Sieve, w: Record)
    requires IsWritten(days, w) && sieve(w).Some?
    ensures sieve(w).value in AllRecords(days, sieve)
  {
    hide SiftFiles, SortByTs;
    var n := |days| - 1;
    var day, file :| day in days && file in day && file.Readable? && Json(w) in file.lines;
    if days[n] == day {
      FileIsKept(day, sieve, file, w);
      SortIsStable(SiftFiles(day, sieve), "");
      assert sieve(w).value in multiset(DayRecords(day, sieve));
    } else {
      assert day in days[..n];
      WrittenIsRead(days[..n], sieve, w);
    }
  }

  predicate Dropped(line: Line, p: Record -> bool) {
    line.Json? && !p(line.record)
  }

  /** The days without the records that do not satisfy p. */
  function KeepLines(lines: seq<Line>, p: Record -> bool): seq<Line> {
    if lines == [] then [] else
      var n := |lines| - 1;
      KeepLines(lines[..n], p) + (if Dropped(lines[n], p) then [] else [lines[n]])
  }

  function KeepFile(file: File, p: Record -> bool): File {
    if file.Readable? then Readable(KeepLines(file.lines, p)) else file
  }

  function KeepDay(day: Day, p: Record -> bool): Day {
    seq(|day|, i requires 0 <= i < |day| => KeepFile(day[i], p))
  }

  function KeepDays(days: seq<Day>, p: Record -> bool): seq<Day> {
    seq(|days|, i requires 0 <= i < |days| => KeepDay(days[i], p))
  }

  lemma SiftSnoc(lines: seq<Line>, line: Line, sieve: Sieve)
    ensures Sift(lines + [line], sieve)
         == Sift(lines, sieve) + (if line.Json? && sieve(line.record).Some? then [sieve(line.record).value] else [])
  {
    assert (lines + [line])[..|lines|] == lines;
  }

  lemma KeepLast(lines: seq<Line>, p: Record -> bool)
    requires lines != []
    ensures var n := |lines| - 1;
            KeepLines(lines, p) == if Dropped(lines[n], p) then KeepLines(lines[..n], p)
                                   else KeepLines(lines[..n], p) + [lines[n]]
  {
  }

  /** Sieve b keeps of a record that satisfies p what sieve a keeps, and nothing of the others. */
  ghost predicate Narrows(b: Sieve, p: Record -> bool, a: Sieve) {
    forall r :: b(r) == if p(r) then a(r) else None
  }

  lemma {:induction false} KeptLinesSiftTheSame(lines: seq<Line>, p: Record -> bool, a: Sieve, b: Sieve)
    requires Narrows(b, p, a)
    ensures Sift(KeepLines(lines, p), a) == Sift(lines, b)
  {
    if lines != [] {
      hide *;
      var n := |lines| - 1;
      var front, last := lines[..n], lines[n];
      KeptLinesSiftTheSame(front, p, a, b);
      KeepLast(lines, p);
      assert lines == front + [last];
      SiftSnoc(front, last, b);
      if last.Json? {
        NarrowedLine(last, p, a, b);
      }
      if !Dropped(last, p) {
        SiftSnoc(KeepLines(front, p), last, a);
      }
    }
  }

  lemma NarrowedLine(line: Line, p: Record -> bool, a: Sieve, b: Sieve)
    requires Narrows(b, p, a) && line.Json?
    ensures b(line.record) == if Dropped(line, p) then None else a(line.record)
  {
  }

  lemma {:induction false} KeptFilesSiftTheSame(day: Day, p: Record -> bool, a: Sieve, b: Sieve)
    requires Narrows(b, p, a)
    ensures SiftFiles(KeepDay(day, p), a) == SiftFiles(day, b)
  {
    hide Sift, KeepLines, Narrows;
    if day != [] {
      var n := |day| - 1;
      KeptFilesSiftTheSame(day[..n], p, a, b);
      assert KeepDay(day, p)[..n] == KeepDay(day[..n], p);
      if day[n].Readable? {
        KeptLinesSiftTheSame(day[n].lines, p, a, b);
      }
    }
  }

  /** A scan reads the same where what it would drop has not been written. */
  lemma {:induction false} KeptDaysReadTheSame(days: seq<Day>, p: Record -> bool, a: Sieve, b: Sieve)
    requires Narrows(b, p, a)
    ensures AllRecords(KeepDays(days, p), a) == AllRecords(days, b)
  {
    hide SiftFiles, KeepDay, SortByTs, Narrows;
    if days != [] {
      var n := |days| - 1;
      KeptDaysReadTheSame(days[..n], p, a, b);
      KeptFilesSiftTheSame(days[n], p, a, b);
      assert KeepDays(days, p)[..n] == KeepDays(days[..n], p);
    }
  }

  // ----- what the pairs are

  /** What the failure paths log in place of a reply. */
  ghost predicate IsPlaceholder(text: string) {
    || text == "[stopped by user]" || text == "[no response]"
    || exists error: string :: error != "" && text == "[error: " + error + "]"
  }

  lemma SyntheticExactly(text: string)
    ensures IsSynthetic(text) <==> IsPlaceholder(text)
  {
    if error: string :| error != "" && text == "[error: " + error + "]" {
      assert text[..8] == "[error: ";
    }
    if |text| >= 10 && text[..8] == "[error: " && text[|text| - 1] == ']' {
      assert text == "[error: " + text[8..|text| - 1] + "]";
    }
  }

  /** The pair holds the visible texts of a user and of an assistant record of the chat, both
      written, and no placeholder. */
  ghost predicate IsOwnPair(days: seq<Day>, chatId: int, p: Pair) {
    exists u, a ::
      && IsWritten(days, u) && u.chatId == Some(chatId) && u.dir == "user" && p.0 == Strip(u.text) != ""
      && IsWritten(days, a) && a.chatId == Some(chatId) && a.dir == "assistant" && p.1 == Strip(a.text) != ""
      && !IsPlaceholder(p.1)
  }

  lemma {:induction false} TurnIsRecord(records: seq<Record>, r: Record)
    requires r in Turns(records)
    ensures r in records
  {
    if !(IsTurn(records[0]) && r == records[0]) {
      TurnIsRecord(records[1..], r);
    }
  }

  lemma {:induction false} PairIsTurns(turns: seq<Record>, p: Pair) returns (u: Record, a: Record)
    requires p in AdjacentPairs(turns)
    ensures u in turns && a in turns && u.dir == "user" && a.dir == "assistant" && p == (u.text, a.text)
  {
    if p in AdjacentPairs(turns[1..]) {
      u, a := PairIsTurns(turns[1..], p);
    } else {
      u, a := turns[0], turns[1];
    }
  }

  function RecentPairs(days: seq<Day>, chatId: int, n: int): seq<Pair> {
    LastN(AdjacentPairs(Turns(AllRecords(days, PairSieve(chatId)))), n)
  }

  lemma PairIsOwn(days: seq<Day>, chatId: int, n: int, p: Pair)
    requires p in RecentPairs(days, chatId, n)
    ensures IsOwnPair(days, chatId, p)
  {
    hide AdjacentPairs, Turns, AllRecords, IsWritten, IsSynthetic, IsPlaceholder, Strip;
    var all := AllRecords(days, PairSieve(chatId));
    var u, a := PairIsTurns(Turns(all), p);
    TurnIsRecord(all, u);
    TurnIsRecord(all, a);
    var u' := RecordIsWritten(days, PairSieve(chatId), u);
    var a' := RecordIsWritten(days, PairSieve(chatId), a);
    SyntheticExactly(p.1);
  }

  function IsOfChat(chatId: int): Record -> bool {
    (r: Record) => r.chatId == Some(chatId)
  }

  /** What is written of other chats, or without a chat, does not change the pairs. */
  lemma OtherChatsDoNotMatter(days: seq<Day>, chatId: int, n: int)
    ensures RecentPairs(KeepDays(days, IsOfChat(chatId)), chatId, n) == RecentPairs(days, chatId, n)
  {
    hide AdjacentPairs, Turns, AllRecords, KeepDays, IsSynthetic, Strip, LastN;
    KeptDaysReadTheSame(days, IsOfChat(chatId), PairSieve(chatId), PairSieve(chatId));
  }

  /** A record that is not earlier than any other comes last. */
  lemma LatestComesLast(rs: seq<Record>, r: Record)
    requires forall q | q in rs :: Leq(q.ts, r.ts)
    ensures SortByTs(rs + [r]) == SortByTs(rs) + [r]
  {
    hide Leq;
    assert (rs + [r])[..|rs|] == rs;
    SortIsStable(rs, "");
    var sorted := SortByTs(rs);
    if sorted != [] {
      assert sorted[|sorted| - 1] in multiset(sorted);
    }
  }

  lemma LatestExchangeComesLast(days: seq<Day>, sieve: Sieve, before: seq<Record>, u: Record, a: Record)
    requires days != [] && SiftFiles(days[0], sieve) == before + [u, a]
    requires (forall q | q in before :: Leq(q.ts, u.ts) && Leq(q.ts, a.ts)) && Leq(u.ts, a.ts)
    requires u.dir == "user" && a.dir == "assistant"
    ensures var pairs := AdjacentPairs(Turns(AllRecords(days, sieve)));
            pairs != [] && pairs[|pairs| - 1] == (u.text, a.text)
  {
    hide AllRecords, SiftFiles, SortByTs, Leq;
    assert before + [u, a] == (before + [u]) + [a];
    LatestComesLast(before, u);
    LatestComesLast(before + [u], a);
    assert DayRecords(days[0], sieve) == SortByTs(before) + [u, a];
    assert days == [days[0]] + days[1..];
    DaysRunBackwards([days[0]], days[1..], sieve);
    var older := AllRecords(days[1..], sieve) + SortByTs(before);
    assert AllRecords(days, sieve) == older + [u, a];
    TurnsConcat(older, [u, a]);
    assert Turns([u, a]) == [u, a] by { TwoTurns(u, a); }
    OlderPairsComeFirst(Turns(older), [u, a]);
    PairsAfterUser(u, [a]);
    PairsAfterAssistant(a, []);
    assert [u] + [a] == [u, a] && [a] + [] == [a];
  }

  lemma TwoTurns(u: Record, a: Record)
    requires IsTurn(u) && IsTurn(a)
    ensures Turns([u, a]) == [u, a]
  {
    TurnsCons(u, [a]);
    TurnsCons(a, []);
    NoTurns();
    assert [u] + [a] == [u, a] && [a] + [] == [a];
  }

  lemma SiftEnd(files: Day, lines: seq<Line>, u: Record, a: Record, sieve: Sieve)
    requires sieve(u).Some? && sieve(a).Some?
    ensures SiftFiles(files + [Readable(lines + [Json(u), Json(a)])], sieve)
         == SiftFiles(files + [Readable(lines)], sieve) + [sieve(u).value, sieve(a).value]
  {
    assert lines + [Json(u), Json(a)] == (lines + [Json(u)]) + [Json(a)];
    SiftSnoc(lines, Json(u), sieve);
    SiftSnoc(lines + [Json(u)], Json(a), sieve);
    assert (files + [Readable(lines)])[..|files|] == files;
    assert (files + [Readable(lines + [Json(u), Json(a)])])[..|files|] == files;
  }

  /** An exchange of the chat that was just written is the last pair, whatever was written before. */
  lemma CurrentExchangeIsLast(days: seq<Day>, files: Day, lines: seq<Line>, chatId: int, n: int, u: Record, a: Record)
    requires days != [] && days[0] == files + [Readable(lines + [Json(u), Json(a)])] && n > 0
    requires (forall r | IsWritten([files + [Readable(lines)]], r) :: Leq(r.ts, u.ts) && Leq(r.ts, a.ts))
    requires Leq(u.ts, a.ts) && u.chatId == Some(chatId) && a.chatId == Some(chatId)
    requires u.dir == "user" && a.dir == "assistant"
    requires Strip(u.text) != "" && Strip(a.text) != "" && !IsPlaceholder(Strip(a.text))
    ensures var pairs := RecentPairs(days, chatId, n);
            pairs != [] && pairs[|pairs| - 1] == (Strip(u.text), Strip(a.text))
  {
    hide Leq, AllRecords, AdjacentPairs, Turns, SiftFiles, Sift, Strip, IsSynthetic, IsPlaceholder, IsWritten;
    var sieve := PairSieve(chatId);
    SyntheticExactly(Strip(a.text));
    SiftEnd(files, lines, u, a, sieve);
    var before := SiftFiles(files + [Readable(lines)], sieve);
    forall q | q in before
      ensures Leq(q.ts, u.ts) && Leq(q.ts, a.ts)
    {
      FileIsWritten(files + [Readable(lines)], sieve, q);
      var w, file :|
        file in files + [Readable(lines)] && file.Readable? && Json(w) in file.lines && sieve(w) == Some(q);
      assert IsWritten([files + [Readable(lines)]], w) by { OneDayIsWritten(files + [Readable(lines)], file, w); }
      assert q.ts == w.ts;
    }
    LatestExchangeComesLast(days, sieve, before, sieve(u).value, sieve(a).value);
  }

  /** A further message that comes before the reply takes the reply: the last pair is then the exchange
      that the reply belongs to if and only if both messages read the same. */
  lemma LaterMessageTakesTheReply(days: seq<Day>, files: Day, lines: seq<Line>, chatId: int, n: int, u: Record,
                                  v: Record, a: Record)
    requires days != [] && days[0] == files + [Readable(lines + [Json(u), Json(v), Json(a)])] && n > 0
    requires (forall r | IsWritten([files + [Readable(lines)]], r) :: Leq(r.ts, u.ts))
    requires Leq(u.ts, v.ts) && Leq(v.ts, a.ts)
    requires u.chatId == Some(chatId) && v.chatId == Some(chatId) && a.chatId == Some(chatId)
    requires u.dir == "user" && v.dir == "user" && a.dir == "assistant"
    requires Strip(u.text) != "" && Strip(v.text) != "" && Strip(a.text) != "" && !IsPlaceholder(Strip(a.text))
    ensures var pairs := RecentPairs(days, chatId, n);
            && pairs != [] && pairs[|pairs| - 1] == (Strip(v.text), Strip(a.text))
            && (pairs[|pairs| - 1] == (Strip(u.text), Strip(a.text)) <==> Strip(u.text) == Strip(v.text))
  {
    hide Leq, RecentPairs, Strip, IsPlaceholder, IsWritten;
    var before := lines + [Json(u)];
    assert lines + [Json(u), Json(v), Json(a)] == before + [Json(v), Json(a)];
    forall r | IsWritten([files + [Readable(before)]], r)
      ensures Leq(r.ts, v.ts) && Leq(r.ts, a.ts)
    {
      WrittenBeforeOrIt(files, lines, u, r);
      if r != u {
        Transitive(r.ts, u.ts, v.ts);
      }
      Transitive(r.ts, v.ts, a.ts);
    }
    CurrentExchangeIsLast(days, files, before, chatId, n, v, a);
  }

  lemma WrittenBeforeOrIt(files: Day, lines: seq<Line>, u: Record, r: Record)
    requires IsWritten([files + [Readable(lines + [Json(u)])]], r)
    ensures r == u || IsWritten([files + [Readable(lines)]], r)
  {
    var day, file :| day in [files + [Readable(lines + [Json(u)])]] && file in day && file.Readable?
      && Json(r) in file.lines;
    if file in files {
      OneDayIsWritten(files + [Readable(lines)], file, r);
    } else if r != u {
      OneDayIsWritten(files + [Readable(lines)], Readable(lines), r);
    }
  }

  lemma OneDayIsWritten(day: Day, file: File, r: Record)
    requires file in day && file.Readable? && Json(r) in file.lines
    ensures IsWritten([day], r)
  {
    assert day in [day];
  }

  /** Stopping at the day that completes n pairs gives the last n pairs of the whole history. */
  method GetRecentPairs(days: seq<Day>, chatId: int, n: int) returns (pairs: seq<Pair>)
    ensures pairs == RecentPairs(days, chatId, n)
    ensures pairs == RecentPairs(KeepDays(days, IsOfChat(chatId)), chatId, n)
    ensures forall p | p in pairs :: IsOwnPair(days, chatId, p)
  {
    hide AdjacentPairs, Turns, AllRecords, DayRecords, PairSieve, KeepDays, IsOwnPair;
    OtherChatsDoNotMatter(days, chatId, n);
    forall p | p in RecentPairs(days, chatId, n)
      ensures IsOwnPair(days, chatId, p)
    {
      PairIsOwn(days, chatId, n, p);
    }
    if n <= 0 {
      return [];
    }
    var sieve := PairSieve(chatId);
    var records: seq<Record> := [];
    pairs := [];
    NoDaysNoPairs(days, sieve);
    for i := 0 to |days|
      invariant records == AllRecords(days[..i], sieve)
      invariant pairs == AdjacentPairs(Turns(records)) && |pairs| < n
    {
      var dayRecords := ReadDay(days[i], sieve);
      OneMoreDay(days, i, sieve);
      records := dayRecords + records;
      pairs := PairRecordsChronologically(records);
      if |pairs| >= n {
        EarlyBreakIsSound(days, i + 1, sieve, n);
        if |pairs| > n {
          pairs := pairs[|pairs| - n..];
        }
        return;
      }
    }
    assert days[..|days|] == days;
  }

  lemma NoDaysNoPairs(days: seq<Day>, sieve: Sieve)
    ensures AllRecords(days[..0], sieve) == [] && AdjacentPairs(Turns([])) == []
  {
  }

  lemma OneMoreDay(days: seq<Day>, i: nat, sieve: Sieve)
    requires i < |days|
    ensures AllRecords(days[..i + 1], sieve) == DayRecords(days[i], sieve) + AllRecords(days[..i], sieve)
  {
    hide DayRecords;
    assert days[..i + 1][..i] == days[..i];
  }

  lemma EarlyBreakIsSound(days: seq<Day>, i: nat, sieve: Sieve, n: int)
    requires i <= |days| && |AdjacentPairs(Turns(AllRecords(days[..i], sieve)))| >= n
    ensures LastN(AdjacentPairs(Turns(AllRecords(days, sieve))), n)
         == LastN(AdjacentPairs(Turns(AllRecords(days[..i], sieve))), n)
  {
    hide AdjacentPairs, Turns, AllRecords;
    NewestDaysAreSuffix(days, i, sieve);
    var recent := AllRecords(days[..i], sieve);
    var older :| AllRecords(days, sieve) == older + recent;
    TurnsConcat(older, recent);
    OlderPairsComeFirst(Turns(older), Turns(recent));
    SuffixHoldsLast(AdjacentPairs(Turns(recent)), AdjacentPairs(Turns(older) + Turns(recent)), n);
  }

  // ----- the display scan

  const MAX_RECENT_MESSAGES: nat := 20

  function Recent(days: seq<Day>, chatId: Maybe<int>): seq<Record> {
    LastN(AllRecords(days, HistorySieve(chatId)), MAX_RECENT_MESSAGES)
  }

  /** Asked for a chat, a record without a chat counts as well; asked for none, every record does. */
  ghost predicate IsOwnRecord(days: seq<Day>, chatId: Maybe<int>, r: Record) {
    IsWritten(days, r) && (chatId == None || r.chatId == None || r.chatId == chatId)
  }

  function IsOfChatOrNone(chatId: int): Record -> bool {
    (r: Record) => r.chatId == None || r.chatId == Some(chatId)
  }

  lemma MessagesAreOwn(days: seq<Day>, chatId: Maybe<int>, r: Record)
    requires r in Recent(days, chatId)
    ensures IsOwnRecord(days, chatId, r)
  {
    hide AllRecords, IsWritten;
    var w := RecordIsWritten(days, HistorySieve(chatId), r);
  }

  /** Exactly the records of other chats are left out, and none where no chat is asked for. */
  lemma OnlyOtherChatsAreLeftOut(days: seq<Day>, chatId: int)
    ensures Recent(days, Some(chatId)) == Recent(KeepDays(days, IsOfChatOrNone(chatId)), None)
  {
    hide AllRecords, KeepDays, LastN;
    KeptDaysReadTheSame(days, IsOfChatOrNone(chatId), HistorySieve(None), HistorySieve(Some(chatId)));
  }

  /** The records that `get_recent_history` formats. */
  method RecentMessages(days: seq<Day>, chatId: Maybe<int>) returns (messages: seq<Record>)
    ensures messages == Recent(days, chatId)
    ensures forall r | r in messages :: IsOwnRecord(days, chatId, r)
    ensures chatId.Some? ==> messages == Recent(KeepDays(days, IsOfChatOrNone(chatId.value)), None)
  {
    hide AllRecords, DayRecords, HistorySieve, KeepDays, IsOwnRecord;
    forall r | r in Recent(days, chatId)
      ensures IsOwnRecord(days, chatId, r)
    {
      MessagesAreOwn(days, chatId, r);
    }
    if chatId.Some? {
      OnlyOtherChatsAreLeftOut(days, chatId.value);
    }
    var sieve := HistorySieve(chatId);
    messages := [];
    NoDaysNoPairs(days, sieve);
    for i := 0 to |days|
      invariant messages == AllRecords(days[..i], sieve) && |messages| < MAX_RECENT_MESSAGES
    {
      var dayRecords := ReadDay(days[i], sieve);
      OneMoreDay(days, i, sieve);
      messages := dayRecords + messages;
      if |messages| >= MAX_RECENT_MESSAGES {
        NewestDaysAreSuffix(days, i + 1, sieve);
        var older :| AllRecords(days, sieve) == older + messages;
        SuffixHoldsLast(messages, older + messages, MAX_RECENT_MESSAGES);
        return LastN(messages, MAX_RECENT_MESSAGES);
      }
    }
    assert days[..|days|] == days;
  }

  const MAX_CHARS_PER_MESSAGE: nat := 500

  function Shortened(text: string): string {
    if |text| > MAX_CHARS_PER_MESSAGE then text[..MAX_CHARS_PER_MESSAGE] + "..." else text
  }

  /** Date and time of a time stamp, up to the minute. */
  function Minute(ts: string): string {
    var t := if |ts| > 16 then ts[..16] else ts;
    seq(|t|, i requires 0 <= i < |t| => if t[i] == 'T' then ' ' else t[i])
  }

  function FormatMessage(r: Record): string {
    "[" + Minute(r.ts) + "] " + (if r.dir == "user" then "You" else "Bjornheim AI") + ": " + Shortened(r.text)
  }

  /** A short text is shown as it is, after the date, the time and the speaker. */
  lemma ShortMessageAsShown(r: Record, date: string, time: string, rest: string)
    requires r.ts == date + "T" + time + rest && |date| == 10 && |time| == 5 && |r.text| <= 500
    requires 'T' !in date && 'T' !in time
    ensures FormatMessage(r)
         == "[" + date + " " + time + "] " + (if r.dir == "user" then "You" else "Bjornheim AI") + ": " + r.text
  {
    var t := date + "T" + time;
    assert r.ts[..16] == t;
    assert rest == "" ==> r.ts == t;
    assert Minute(r.ts) == date + " " + time;
  }

  function FormatAll(messages: seq<Record>): seq<string> {
    if messages == [] then []
    else FormatAll(messages[..|messages| - 1]) + [FormatMessage(messages[|messages| - 1])]
  }

  /** The last messages of the whole history, a line each. */
  method GetRecentHistory(days: seq<Day>, chatId: Maybe<int>) returns (history: string)
    ensures history == JoinLines(FormatAll(Recent(days, chatId)))
  {
    hide FormatMessage, Recent, IsOwnRecord, KeepDays;
    var messages := RecentMessages(days, chatId);
    var lines := [];
    assert messages[..0] == [] && messages[..|messages|] == messages;
    for i := 0 to |messages|
      invariant lines == FormatAll(messages[..i])
    {
      assert messages[..i + 1][..i] == messages[..i];
      lines := lines + [FormatMessage(messages[i])];
    }
    history := JoinLines(lines);
  }
}

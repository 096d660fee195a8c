/** Resolving a transcript provenance to its turns and their surroundings
    (src/kai/history.py, lines 718 to 1001). Dates are day numbers. */
module TranscriptWindow {
  import opened Options
  import opened Lexicographic
  import opened History

  datatype Turn = Turn(ts: string, dir: string, text: string)

  datatype DayFile = Missing | Unreadable | Present(records: seq<Turn>)

  /** The history directories of one chat, or none when the chat resolves to no namespace. */
  datatype Archive = Unresolved | Days(day: int -> DayFile)

  datatype Provenance = Provenance(present: bool, chatId: int, date: int, userTs: string, userSha: string,
                                   assistantTs: Maybe<string>)

  datatype Side = User | Assistant

  datatype Reason = Legacy | ChatMismatch | FileMissing | FileUnreadable | TsNotFound(side: Side) | HashMismatch

  datatype Context = Context(targetUser: Turn, targetAssistant: Maybe<Turn>, before: seq<Turn>, after: seq<Turn>)

  datatype Lookup = Ok(context: Context) | Failed(reason: Reason)

  /** A day that is missing or unreadable contributes nothing to a window. */
  function RecordsOf(file: DayFile): seq<Turn> {
    if file.Present? then file.records else []
  }

  predicate Matches(t: Turn, ts: string, dir: string) {
    t.ts == ts && t.dir == dir
  }

  /** The first match in a list of records. */
  function Position(records: seq<Turn>, ts: string, dir: string): (r: Maybe<nat>)
    ensures r.Some? ==> r.value < |records| && Matches(records[r.value], ts, dir)
  {
    if records == [] then None
    else if Matches(records[0], ts, dir) then Some(0)
    else
      var r := Position(records[1..], ts, dir);
      if r.None? then None else Some(r.value + 1)
  }

  method FindRecordIndex(records: seq<Turn>, ts: string, dir: string) returns (r: Maybe<nat>)
    ensures r == Position(records, ts, dir)
  {
    assert records[0..] == records;
    for i := 0 to |records|
      invariant Position(records, ts, dir)
             == if Position(records[i..], ts, dir).None? then None else Some(i + Position(records[i..], ts, dir).value)
    {
      if Matches(records[i], ts, dir) {
        return Some(i);
      }
      assert records[i..][1..] == records[i + 1..];
    }
    r := None;
  }

  // ----- windows

  function Visible(turns: seq<Turn>): seq<Turn> {
    if turns == [] then [] else (if IsSynthetic(turns[0].text) then [] else [turns[0]]) + Visible(turns[1..])
  }

  function FirstN<T>(xs: seq<T>, n: int): seq<T> {
    if n <= 0 then [] else if |xs| <= n then xs else xs[..n]
  }

  function Reverse<T>(xs: seq<T>): seq<T> {
    if xs == [] then [] else Reverse(xs[1..]) + [xs[0]]
  }

  lemma VisibleCons(t: Turn, rest: seq<Turn>)
    ensures Visible([t] + rest) == if IsSynthetic(t.text) then Visible(rest) else [t] + Visible(rest)
  {
    hide IsSynthetic;
    assert ([t] + rest)[1..] == rest;
  }

  lemma {:induction false} VisibleConcat(a: seq<Turn>, b: seq<Turn>)
    ensures Visible(a + b) == Visible(a) + Visible(b)
  {
    hide Visible, IsSynthetic;
    if a == [] {
      assert a + b == b;
      NothingVisible();
    } else {
      assert a + b == [a[0]] + (a[1..] + b) && a == [a[0]] + a[1..];
      VisibleCons(a[0], a[1..] + b);
      VisibleCons(a[0], a[1..]);
      VisibleConcat(a[1..], b);
    }
  }

  lemma VisibleOne(t: Turn)
    ensures Visible([t]) == if IsSynthetic(t.text) then [] else [t]
  {
  }

  /** Placeholders are left out and all other turns are kept, in order. */
  lemma VisibleExactly(before: seq<Turn>, t: Turn, after: seq<Turn>)
    ensures Visible(before + [t] + after)
         == Visible(before) + (if IsPlaceholder(t.text) then [] else [t]) + Visible(after)
    ensures Visible([]) == []
  {
    SyntheticExactly(t.text);
    VisibleOne(t);
    VisibleConcat(before, [t]);
    VisibleConcat(before + [t], after);
  }

  lemma FirstNExactly<T>(xs: seq<T>, n: int)
    ensures FirstN(xs, n) <= xs
    ensures |FirstN(xs, n)| == if n <= 0 then 0 else if n < |xs| then n else |xs|
  {
  }

  lemma {:induction false} ReverseSnoc<T>(xs: seq<T>, x: T)
    ensures Reverse(xs + [x]) == [x] + Reverse(xs)
  {
    if xs == [] {
      assert xs + [x] == [x];
    } else {
      assert (xs + [x])[1..] == xs[1..] + [x];
      ReverseSnoc(xs[1..], x);
    }
  }

  lemma {:induction false} ReverseLength<T>(xs: seq<T>)
    ensures |Reverse(xs)| == |xs|
  {
    if xs != [] {
      ReverseLength(xs[1..]);
    }
  }

  lemma LastNOfLonger<T>(front: seq<T>, xs: seq<T>, n: int)
    ensures |xs| >= n ==> LastN(front + xs, n) == LastN(xs, n)
    ensures LastN(front + LastN(xs, n), n) == LastN(front + xs, n)
  {
  }

  lemma VisibleFrom(records: seq<Turn>, i: nat)
    requires i < |records|
    ensures Visible(records[i..]) == if IsSynthetic(records[i].text) then Visible(records[i + 1..])
                                     else [records[i]] + Visible(records[i + 1..])
  {
    hide *;
    var rest := records[i + 1..];
    assert records[i..] == [records[i]] + rest;
    VisibleCons(records[i], rest);
  }

  lemma VisibleSplit(records: seq<Turn>, i: nat)
    requires i <= |records|
    ensures Visible(records) == Visible(records[..i]) + Visible(records[i..])
  {
    hide *;
    var a, b := records[..i], records[i..];
    assert records == a + b;
    VisibleConcat(a, b);
  }

  lemma OneBefore(records: seq<Turn>, i: nat, rest: seq<Turn>)
    requires i < |records|
    ensures var window := Visible(records[i + 1..]) + rest;
            Visible(records[i..]) + rest == if IsSynthetic(records[i].text) then window else [records[i]] + window
    ensures Visible(records[..i]) + (Visible(records[i..]) + rest) == Visible(records) + rest
  {
    hide Visible, IsSynthetic;
    VisibleFrom(records, i);
    VisibleSplit(records, i);
    Associative(Visible(records[..i]), Visible(records[i..]), rest);
    Associative([records[i]], Visible(records[i + 1..]), rest);
  }

  lemma Associative<T>(a: seq<T>, b: seq<T>, c: seq<T>)
    ensures a + (b + c) == (a + b) + c
  {
  }

  /** Either loop of `_collect_before`: walks backwards until the window is full. */
  method WalkBackwards(records: seq<Turn>, limit: int, start: seq<Turn>) returns (collected: seq<Turn>)
    requires |start| < limit
    ensures Reverse(collected) == LastN(Visible(records) + Reverse(start), limit)
  {
    hide Visible, Reverse, LastN, IsSynthetic;
    collected := start;
    ghost var window := Reverse(start);
    assert records[|records|..] == [] && records[0..] == records;
    NothingVisible();
    ReverseLength(start);
    for i := |records| downto 0
      invariant |window| == |collected| < limit && window == Reverse(collected)
      invariant window == Visible(records[i..]) + Reverse(start)
    {
      var rec := records[i];
      OneBefore(records, i, Reverse(start));
      if IsSynthetic(rec.text) {
        continue;
      }
      ReverseSnoc(collected, rec);
      collected := collected + [rec];
      window := [rec] + window;
      if |collected| >= limit {
        LastNOfLonger(Visible(records[..i]), window, limit);
        LastNOfAll(window, limit);
        return;
      }
    }
    LastNOfAll(window, limit);
  }

  lemma LastNOfAll<T>(xs: seq<T>, n: int)
    ensures 0 <= |xs| <= n ==> LastN(xs, n) == xs
  {
  }

  lemma NothingVisible()
    ensures Visible([]) == [] && Reverse<Turn>([]) == []
  {
  }

  method ReverseInPlace(xs: seq<Turn>) returns (r: seq<Turn>)
    ensures r == Reverse(xs)
  {
    hide Reverse;
    r := [];
    NothingVisible();
    assert xs[..0] == [] && xs[..|xs|] == xs;
    for i := 0 to |xs|
      invariant r == Reverse(xs[..i])
    {
      assert xs[..i + 1] == xs[..i] + [xs[i]];
      ReverseSnoc(xs[..i], xs[i]);
      r := [xs[i]] + r;
    }
  }

  method CollectBefore(archive: int -> DayFile, date: int, primary: seq<Turn>, userIndex: nat, before: int)
    returns (turns: seq<Turn>)
    requires userIndex <= |primary|
    ensures turns == LastN(Visible(RecordsOf(archive(date - 1)) + primary[..userIndex]), before)
  {
    hide Visible, Reverse;
    if before <= 0 {
      return [];
    }
    NothingVisible();
    var collected := WalkBackwards(primary[..userIndex], before, []);
    ghost var near, prev := Visible(primary[..userIndex]), RecordsOf(archive(date - 1));
    VisibleConcat(prev, primary[..userIndex]);
    assert Reverse(collected) == LastN(near, before) by { assert near + [] == near; }
    ReverseLength(collected);
    LastNOfLonger(Visible(prev), near, before);
    if |collected| < before {
      var file := archive(date - 1);
      if file.Present? {
        collected := WalkBackwards(file.records, before, collected);
      } else {
        assert Visible(prev) + near == near;
      }
    }
    turns := ReverseInPlace(collected);
  }

  /** Either loop of `_collect_after`: walks forward until the window is full. */
  method WalkForward(records: seq<Turn>, limit: int, start: seq<Turn>) returns (collected: seq<Turn>)
    requires |start| < limit
    ensures collected == FirstN(start + Visible(records), limit)
  {
    hide Visible;
    collected := start;
    NothingVisible();
    assert records[..0] == [];
    for i := 0 to |records|
      invariant collected == start + Visible(records[..i]) && |collected| < limit
    {
      var rec := records[i];
      assert records[..i + 1] == records[..i] + [rec];
      VisibleConcat(records[..i], [rec]);
      VisibleOne(rec);
      if IsSynthetic(rec.text) {
        continue;
      }
      collected := collected + [rec];
      if |collected| >= limit {
        assert records == records[..i + 1] + records[i + 1..];
        VisibleConcat(records[..i + 1], records[i + 1..]);
        return;
      }
    }
    assert records[..|records|] == records;
  }

  /** Where the scan of the next day begins: after the assistant turn, if it lies there. */
  function NextStart(next: seq<Turn>, assistant: Maybe<Turn>): (start: nat)
    ensures start <= |next|
  {
    if assistant.None? then 0 else
      var r := Position(next, assistant.value.ts, "assistant");
      if r.None? then 0 else r.value + 1
  }

  /** The records that `_collect_after` looks at, in order. */
  function AfterAnchor(primary: seq<Turn>, next: seq<Turn>, anchor: Maybe<nat>, assistant: Maybe<Turn>): seq<Turn>
    requires anchor.Some? ==> anchor.value < |primary|
  {
    (if anchor.Some? then primary[anchor.value + 1..] else []) + next[NextStart(next, assistant)..]
  }

  method CollectAfter(archive: int -> DayFile, date: int, primary: seq<Turn>, anchor: Maybe<nat>,
                      assistant: Maybe<Turn>,
                      after: int) returns (turns: seq<Turn>)
    requires anchor.Some? ==> anchor.value < |primary|
    requires anchor.Some? || assistant.Some?
    ensures turns == FirstN(Visible(AfterAnchor(primary, RecordsOf(archive(date + 1)), anchor, assistant)), after)
  {
    hide Visible, NextStart;
    if after <= 0 {
      return [];
    }
    NothingVisible();
    turns := [];
    ghost var near := if anchor.Some? then primary[anchor.value + 1..] else [];
    if anchor.Some? {
      turns := WalkForward(primary[anchor.value + 1..], after, []);
      assert [] + Visible(near) == Visible(near);
    }
    var file := archive(date + 1);
    ghost var rest := RecordsOf(file)[NextStart(RecordsOf(file), assistant)..];
    VisibleConcat(near, rest);
    if |turns| < after {
      if file.Present? {
        var start := 0;
        if assistant.Some? {
          var forward := FindRecordIndex(file.records, assistant.value.ts, "assistant");
          if forward.Some? {
            start := forward.value + 1;
          }
        }
        StartIs(file.records, assistant, start);
        turns := WalkForward(file.records[start..], after, turns);
      } else {
        assert rest == [] && Visible(near) + [] == Visible(near);
      }
    }
  }

  lemma StartIs(next: seq<Turn>, assistant: Maybe<Turn>, start: nat)
    requires start == if assistant.None? then 0 else
                      var r := Position(next, assistant.value.ts, "assistant"); if r.None? then 0 else r.value + 1
    ensures NextStart(next, assistant) == start
  {
  }

  // ----- the lookup

  /** Why a lookup fails, the first reason that applies; None when it succeeds. */
  function FailureOf(archive: Archive, p: Provenance, expected: Maybe<int>, sha: string -> string): Maybe<Reason> {
    if !p.present then Some(Legacy)
    else if expected.Some? && expected.value != p.chatId then Some(ChatMismatch)
    else if archive.Unresolved? || archive.day(p.date).Missing? then Some(FileMissing)
    else if archive.day(p.date).Unreadable? then Some(FileUnreadable)
    else
      var primary := archive.day(p.date).records;
      var user := Position(primary, p.userTs, "user");
      if user.None? then Some(TsNotFound(User))
      else if sha(primary[user.value].text) != p.userSha then Some(HashMismatch)
      else if p.assistantTs.Some? && AssistantAt(primary, RecordsOf(archive.day(p.date + 1)), p.assistantTs.value).None?
      then Some(TsNotFound(Assistant))
      else None
  }

  /** The place of the assistant turn in the timeline of the day and the next, the day itself first. */
  function AssistantAt(primary: seq<Turn>, next: seq<Turn>, ts: string): (r: Maybe<nat>)
    ensures r.Some? ==> r.value < |primary| + |next| && Matches((primary + next)[r.value], ts, "assistant")
  {
    var here, there := Position(primary, ts, "assistant"), Position(next, ts, "assistant");
    if here.Some? then here else if there.Some? then Some(|primary| + there.value) else None
  }

  predicate IsOwn(p: Provenance, expected: Maybe<int>) {
    p.present && (expected == None || expected == Some(p.chatId))
  }

  predicate HasDay(archive: Archive, date: int) {
    archive.Days? && archive.day(date).Present?
  }

  predicate Holds(records: seq<Turn>, ts: string, dir: string) {
    exists i | 0 <= i < |records| :: Matches(records[i], ts, dir)
  }

  ghost predicate IsFirst(records: seq<Turn>, i: int, ts: string, dir: string) {
    0 <= i < |records| && Matches(records[i], ts, dir) && forall j | 0 <= j < i :: !Matches(records[j], ts, dir)
  }

  /** The user turn is found and is still the one that was fingerprinted, or has been changed. */
  ghost predicate UserIs(records: seq<Turn>, p: Provenance, sha: string -> string, same: bool) {
    exists i :: IsFirst(records, i, p.userTs, "user") && same == (sha(records[i].text) == p.userSha)
  }

  ghost predicate Explains(reason: Reason, archive: Archive, p: Provenance, expected: Maybe<int>, sha: string -> string)
  {
    match reason
    case Legacy => !p.present
    case ChatMismatch => p.present && !IsOwn(p, expected)
    case FileMissing => IsOwn(p, expected) && (archive.Unresolved? || archive.day(p.date).Missing?)
    case FileUnreadable => IsOwn(p, expected) && archive.Days? && archive.day(p.date).Unreadable?
    case TsNotFound(side) =>
      && IsOwn(p, expected) && HasDay(archive, p.date)
      && var primary := archive.day(p.date).records;
         if side == User then !Holds(primary, p.userTs, "user") else
           && UserIs(primary, p, sha, true) && p.assistantTs.Some?
           && !Holds(primary, p.assistantTs.value, "assistant")
           && !Holds(RecordsOf(archive.day(p.date + 1)), p.assistantTs.value, "assistant")
    case HashMismatch =>
      IsOwn(p, expected) && HasDay(archive, p.date) && UserIs(archive.day(p.date).records, p, sha, false)
  }

  /** The turns are recorded where the provenance says, the user turn is unchanged, and the chat is the
      expected one. */
  ghost predicate IsFound(c: Context, archive: Archive, p: Provenance, expected: Maybe<int>, sha: string -> string) {
    && IsOwn(p, expected) && HasDay(archive, p.date)
    && var primary, next := archive.day(p.date).records, RecordsOf(archive.day(p.date + 1));
       && (exists i :: IsFirst(primary, i, p.userTs, "user") && c.targetUser == primary[i])
       && sha(c.targetUser.text) == p.userSha
       && (p.assistantTs == None ==> c.targetAssistant == None)
       && (p.assistantTs.Some? ==>
             exists i :: && IsFirst(primary + next, i, p.assistantTs.value, "assistant")
                         && c.targetAssistant == Some((primary + next)[i]))
  }

  lemma {:induction false} PositionIsFirst(records: seq<Turn>, ts: string, dir: string)
    ensures var r := Position(records, ts, dir);
            && (r.None? <==> !Holds(records, ts, dir))
            && (r.Some? ==> IsFirst(records, r.value, ts, dir))
            && (forall i | IsFirst(records, i, ts, dir) :: r == Some(i))
  {
    hide Matches;
    if records != [] {
      PositionIsFirst(records[1..], ts, dir);
      assert forall j | 0 < j < |records| :: records[j] == records[1..][j - 1];
    }
  }

  lemma FirstOnTimeline(primary: seq<Turn>, next: seq<Turn>, ts: string)
    ensures var r := AssistantAt(primary, next, ts);
            && (r.None? <==> !Holds(primary, ts, "assistant") && !Holds(next, ts, "assistant"))
            && (r.Some? ==> IsFirst(primary + next, r.value, ts, "assistant"))
  {
    hide Matches, Position;
    PositionIsFirst(primary, ts, "assistant");
    PositionIsFirst(next, ts, "assistant");
    assert forall j | 0 <= j < |primary| :: (primary + next)[j] == primary[j];
    assert forall j | 0 <= j < |next| :: (primary + next)[|primary| + j] == next[j];
    assert forall j | |primary| <= j < |primary + next| :: (primary + next)[j] == next[j - |primary|];
  }

  lemma FailureIsExplained(archive: Archive, p: Provenance, expected: Maybe<int>, sha: string -> string)
    ensures forall reason :: Explains(reason, archive, p, expected, sha)
                             <==> FailureOf(archive, p, expected, sha) == Some(reason)
  {
    hide Holds, IsFirst, Position, AssistantAt;
    if HasDay(archive, p.date) {
      PositionIsFirst(archive.day(p.date).records, p.userTs, "user");
      if p.assistantTs.Some? {
        FirstOnTimeline(archive.day(p.date).records, RecordsOf(archive.day(p.date + 1)), p.assistantTs.value);
      }
    }
  }

  lemma TargetsAreFound(archive: Archive, p: Provenance, expected: Maybe<int>, sha: string -> string, c: Context)
    requires FailureOf(archive, p, expected, sha).None?
    requires var primary, next := archive.day(p.date).records, RecordsOf(archive.day(p.date + 1));
             && c.targetUser == primary[Position(primary, p.userTs, "user").value]
             && c.targetAssistant
                == (if p.assistantTs.None? then None
                    else Some((primary + next)[AssistantAt(primary, next, p.assistantTs.value).value]))
    ensures IsFound(c, archive, p, expected, sha)
  {
    hide Holds, IsFirst, Position, AssistantAt;
    PositionIsFirst(archive.day(p.date).records, p.userTs, "user");
    if p.assistantTs.Some? {
      FirstOnTimeline(archive.day(p.date).records, RecordsOf(archive.day(p.date + 1)), p.assistantTs.value);
    }
  }

  /** Every way to fail is reported as such and as nothing else; on success the targets are the
      recorded turns and the windows are cut out of the timeline around them. */
  method FetchTranscriptContext(archive: Archive, p: Provenance, before: int, after: int, expected: Maybe<int>,
                                sha: string -> string) returns (r: Lookup)
    ensures r.Failed? <==> FailureOf(archive, p, expected, sha).Some?
    ensures r.Failed? ==> r.reason == FailureOf(archive, p, expected, sha).value
    ensures forall reason :: r == Failed(reason) <==> Explains(reason, archive, p, expected, sha)
    ensures r.Ok? ==> IsFound(r.context, archive, p, expected, sha)
    ensures r.Ok? ==>
      archive.Days? && archive.day(p.date).Present? &&
      var primary, next := archive.day(p.date).records, RecordsOf(archive.day(p.date + 1));
      var user := Position(primary, p.userTs, "user");
      user.Some? &&
      var anchor := if p.assistantTs.None? then user else Position(primary, p.assistantTs.value, "assistant");
      && r.context.targetUser == primary[user.value]
      && (if p.assistantTs.None? then r.context.targetAssistant == None
          else var a := AssistantAt(primary, next, p.assistantTs.value);
               a.Some? && r.context.targetAssistant == Some((primary + next)[a.value]))
      && r.context.before == LastN(Visible(RecordsOf(archive.day(p.date - 1)) + primary[..user.value]), before)
      && r.context.after == FirstN(Visible(AfterAnchor(primary, next, anchor, r.context.targetAssistant)), after)
  {
    hide Visible, AfterAnchor, LastN, FirstN, Position, Explains, IsFound;
    FailureIsExplained(archive, p, expected, sha);
    if !p.present {
      return Failed(Legacy);
    }
    if expected.Some? && p.chatId != expected.value {
      return Failed(ChatMismatch);
    }
    if archive.Unresolved? || archive.day(p.date).Missing? {
      return Failed(FileMissing);
    }
    if archive.day(p.date).Unreadable? {
      return Failed(FileUnreadable);
    }
    var primary := archive.day(p.date).records;
    var user := FindRecordIndex(primary, p.userTs, "user");
    if user.None? {
      return Failed(TsNotFound(User));
    }
    var targetUser := primary[user.value];
    if sha(targetUser.text) != p.userSha {
      return Failed(HashMismatch);
    }
    var targetAssistant: Maybe<Turn> := None;
    var anchor := user;
    if p.assistantTs.Some? {
      var here := FindRecordIndex(primary, p.assistantTs.value, "assistant");
      if here.Some? {
        targetAssistant := Some(primary[here.value]);
      } else {
        var forward := archive.day(p.date + 1);
        if forward.Present? {
          var there := FindRecordIndex(forward.records, p.assistantTs.value, "assistant");
          if there.Some? {
            targetAssistant := Some(forward.records[there.value]);
          }
        }
        if targetAssistant.None? {
          return Failed(TsNotFound(Assistant));
        }
      }
      anchor := FindRecordIndex(primary, targetAssistant.value.ts, "assistant");
    }
    var beforeTurns := CollectBefore(archive.day, p.date, primary, user.value, before);
    var afterTurns := CollectAfter(archive.day, p.date, primary, anchor, targetAssistant, after);
    r := Ok(Context(targetUser, targetAssistant, beforeTurns, afterTurns));
    TargetsAreFound(archive, p, expected, sha, r.context);
  }

  // ----- the windows on one flat timeline

  ghost predicate UniqueTs(turns: seq<Turn>) {
    forall i, j | 0 <= i < j < |turns| :: turns[i].ts != turns[j].ts
  }

  /** With unique time stamps the scan after the anchor is the rest of the timeline of both days,
      wherever the assistant turn lies. */
  lemma AnchorOnTimeline(primary: seq<Turn>, next: seq<Turn>, user: nat, assistantTs: Maybe<string>)
    requires UniqueTs(primary + next) && user < |primary|
    requires assistantTs.Some? ==> AssistantAt(primary, next, assistantTs.value).Some?
    ensures var flat := primary + next;
            var at := if assistantTs.None? then user else AssistantAt(primary, next, assistantTs.value).value;
            var target := if assistantTs.None? then None else Some(flat[at]);
            var anchor := if assistantTs.None? then Some(user) else Position(primary, assistantTs.value, "assistant");
            AfterAnchor(primary, next, anchor, target) == flat[at + 1..]
  {
    hide Position, UniqueTs;
    assert next[0..] == next;
    if assistantTs.None? {
      RestOfConcat(primary, next, user + 1);
    } else {
      var ts := assistantTs.value;
      NotOnBothDays(primary, next, ts, "assistant");
      var at := AssistantAt(primary, next, ts).value;
      assert Matches((primary + next)[at], ts, "assistant");
      RestOfConcat(primary, next, at + 1);
    }
  }

  lemma RestOfConcat(a: seq<Turn>, b: seq<Turn>, i: nat)
    requires i <= |a| + |b|
    ensures (a + b)[i..] == if i <= |a| then a[i..] + b else [] + b[i - |a|..]
  {
  }

  /** Where the window after the targets should begin, and what it should hold. */
  function WindowAfter(flat: seq<Turn>, user: nat, assistant: Maybe<nat>, after: int): seq<Turn>
    requires user < |flat| && (assistant.Some? ==> assistant.value < |flat|)
  {
    var rightmost := if assistant.Some? && assistant.value > user then assistant.value else user;
    FirstN(Visible(flat[rightmost + 1..]), after)
  }

  lemma PartsAreApart(flat: seq<Turn>, a: nat, b: nat, t: Turn)
    requires UniqueTs(flat) && a <= b <= |flat| && t in flat[a..b]
    ensures t !in flat[b..]
  {
    assert forall j | b <= j < |flat| :: flat[j] == flat[b..][j - b];
  }

  lemma NotOnBothDays(primary: seq<Turn>, next: seq<Turn>, ts: string, dir: string)
    requires UniqueTs(primary + next)
    ensures Position(primary, ts, dir).None? || Position(next, ts, dir).None?
  {
    var there, flat := Position(next, ts, dir), primary + next;
    if there.Some? {
      assert flat[|primary| + there.value].ts == ts;
      forall i | 0 <= i < |primary|
        ensures primary[i].ts != ts
      {
        assert flat[i] == primary[i];
      }
    }
  }

  lemma {:induction false} VisibleIsPart(turns: seq<Turn>)
    ensures forall t | t in Visible(turns) :: t in turns
  {
    if turns != [] {
      VisibleIsPart(turns[1..]);
    }
  }

  /** The window begins after the rightmost target exactly when the assistant turn does not precede
      the user turn with something visible up to the user turn, or no turns were asked for. */
  lemma WindowAfterTargets(flat: seq<Turn>, user: nat, assistant: Maybe<nat>, after: int)
    requires UniqueTs(flat) && user < |flat|
    requires assistant.Some? ==> assistant.value < |flat|
    ensures var at := if assistant.Some? then assistant.value else user;
            FirstN(Visible(flat[at + 1..]), after) == WindowAfter(flat, user, assistant, after)
            <==> after <= 0 || at >= user || Visible(flat[at + 1..user + 1]) == []
  {
    hide IsSynthetic, UniqueTs, Visible;
    var at := if assistant.Some? then assistant.value else user;
    if after > 0 && at < user {
      var gap, rest := flat[at + 1..user + 1], flat[user + 1..];
      assert flat[at + 1..] == gap + rest;
      VisibleConcat(gap, rest);
      VisibleIsPart(gap);
      VisibleIsPart(rest);
      if Visible(gap) != [] {
        var first := Visible(gap)[0];
        assert first in gap && FirstN(Visible(gap + rest), after)[0] == first;
        PartsAreApart(flat, at + 1, user + 1, first);
        assert first !in Visible(rest);
      } else {
        assert [] + Visible(rest) == Visible(rest);
      }
    }
  }

  /** What a lookup with unique time stamps returns as the window after the targets: the first visible
      turns of both days after the rightmost target, wherever midnight falls, under the same condition. */
  lemma WindowIsOnTheTimeline(primary: seq<Turn>, next: seq<Turn>, user: nat, assistantTs: Maybe<string>, after: int)
    requires UniqueTs(primary + next) && user < |primary|
    requires assistantTs.Some? ==> AssistantAt(primary, next, assistantTs.value).Some?
    ensures var flat := primary + next;
            var assistant := if assistantTs.None? then None else AssistantAt(primary, next, assistantTs.value);
            var at := if assistant.None? then user else assistant.value;
            var target := if assistant.None? then None else Some(flat[at]);
            var anchor := if assistantTs.None? then Some(user) else Position(primary, assistantTs.value, "assistant");
            FirstN(Visible(AfterAnchor(primary, next, anchor, target)), after)
                == WindowAfter(flat, user, assistant, after)
            <==> after <= 0 || at >= user || Visible(flat[at + 1..user + 1]) == []
  {
    hide UniqueTs, Visible, AfterAnchor, FirstN, WindowAfter, Position;
    var assistant := if assistantTs.None? then None else AssistantAt(primary, next, assistantTs.value);
    AnchorOnTimeline(primary, next, user, assistantTs);
    WindowAfterTargets(primary + next, user, assistant, after);
  }

  /** The records of a day are read in the order of their time stamps. */
  ghost predicate InOrder(turns: seq<Turn>) {
    forall i, j | 0 <= i <= j < |turns| :: Leq(turns[i].ts, turns[j].ts)
  }

  lemma OrderOfTimeStamps(turns: seq<Turn>, i: nat, j: nat)
    requires UniqueTs(turns) && InOrder(turns) && i < |turns| && j < |turns|
    ensures Leq(turns[i].ts, turns[j].ts) <==> i <= j
  {
    if j < i && Leq(turns[i].ts, turns[j].ts) {
      Antisymmetric(turns[i].ts, turns[j].ts);
      assert false;
    }
  }

  lemma {:induction false} VisibleHolds(turns: seq<Turn>, k: nat)
    requires k < |turns| && !IsSynthetic(turns[k].text)
    ensures Visible(turns) != []
  {
    hide IsSynthetic;
    if k > 0 {
      VisibleHolds(turns[1..], k - 1);
    }
  }

  /** For a user turn that is no placeholder the condition can be read off the time stamps of the
      provenance: no assistant turn, one on the next day, one that is not earlier, or nothing asked for. */
  lemma WindowByTimeStamps(primary: seq<Turn>, next: seq<Turn>, user: nat, assistantTs: Maybe<string>, after: int)
    requires UniqueTs(primary + next) && InOrder(primary) && user < |primary| && !IsSynthetic(primary[user].text)
    requires assistantTs.Some? ==> AssistantAt(primary, next, assistantTs.value).Some?
    ensures var flat := primary + next;
            var assistant := if assistantTs.None? then None else AssistantAt(primary, next, assistantTs.value);
            var target := if assistant.None? then None else Some(flat[assistant.value]);
            var anchor := if assistantTs.None? then Some(user) else Position(primary, assistantTs.value, "assistant");
            FirstN(Visible(AfterAnchor(primary, next, anchor, target)), after)
                == WindowAfter(flat, user, assistant, after)
            <==> after <= 0 || anchor.None? || assistantTs.None? || Leq(primary[user].ts, assistantTs.value)
  {
    hide UniqueTs, Visible, AfterAnchor, FirstN, WindowAfter, IsSynthetic, InOrder, Leq, Position;
    WindowIsOnTheTimeline(primary, next, user, assistantTs, after);
    var flat := primary + next;
    if assistantTs.Some? && Position(primary, assistantTs.value, "assistant").Some? {
      var at := Position(primary, assistantTs.value, "assistant").value;
      assert UniqueTs(primary) by { UniquePart(primary, next); }
      OrderOfTimeStamps(primary, user, at);
      if at < user {
        assert flat[user] == primary[user];
        UserIsBetween(flat, at, user);
      }
    }
  }

  lemma UserIsBetween(flat: seq<Turn>, at: nat, user: nat)
    requires at < user < |flat| && !IsSynthetic(flat[user].text)
    ensures Visible(flat[at + 1..user + 1]) != []
  {
    hide Visible, IsSynthetic;
    assert flat[at + 1..user + 1][user - at - 1] == flat[user];
    VisibleHolds(flat[at + 1..user + 1], user - at - 1);
  }

  lemma UniquePart(a: seq<Turn>, b: seq<Turn>)
    requires UniqueTs(a + b)
    ensures UniqueTs(a)
  {
    assert forall i | 0 <= i < |a| :: (a + b)[i] == a[i];
  }

  /** An assistant turn recorded before the user turn puts the user turn into its own window. */
  lemma ReversedTargetsSpoilTheWindow()
    ensures var assistant, user := Turn("1", "assistant", "a"), Turn("2", "user", "u");
            && AfterAnchor([assistant, user], [], Some(0), Some(assistant)) == [user]
            && FirstN(Visible([user]), 1) == [user] && WindowAfter([assistant, user], 1, Some(0), 1) == []
  {
    var assistant, user := Turn("1", "assistant", "a"), Turn("2", "user", "u");
    assert [assistant, user][1..] == [user] && [assistant, user][2..] == [];
    VisibleOne(user);
  }
}

/** What a Codex turn shows, over whole runs (src/kai/codex.py, lines 958 to 1282). */
module CodexProperties {
  import opened Options
  import opened CodexTurn

  // ----- one final event, and it comes last

  ghost predicate EndsOnce(out: seq<Emit>) {
    out != [] && out[|out| - 1].Done? && forall i | 0 <= i < |out| - 1 :: out[i].Partial?
  }

  ghost predicate AllPartial(out: seq<Emit>) {
    forall i | 0 <= i < |out| :: out[i].Partial?
  }

  /** The turn meets the end of reading, a final message or a failure. */
  ghost predicate Terminates(events: seq<Event>) {
    exists i :: 0 <= i < |events| && IsTerminal(events[i])
  }

  /** A run that meets a terminal event emits exactly one final event, as the last; any other run
      emits none. */
  lemma {:induction false} OneFinalEvent(st: State, events: seq<Event>)
    ensures if Terminates(events) then EndsOnce(Run(st, events)) else AllPartial(Run(st, events))
    decreases |events|
  {
    hide Step, IsTerminal, EndsOnce, AllPartial, Terminates;
    TerminatesStep(events);
    if events == [] {
      NothingEmitted();
    } else {
      AtMostOne(st, events[0]);
      var (s, out) := Step(st, events[0]);
      if IsTerminal(events[0]) {
        FinalAfter(out, []);
      } else {
        OneFinalEvent(s, events[1..]);
        FinalAfter(out, Run(s, events[1..]));
      }
    }
  }

  lemma TerminatesStep(events: seq<Event>)
    ensures Terminates(events) <==> events != [] && (IsTerminal(events[0]) || Terminates(events[1..]))
  {
    hide IsTerminal;
    if events != [] && Terminates(events[1..]) {
      var i :| 0 <= i < |events| - 1 && IsTerminal(events[1..][i]);
      assert IsTerminal(events[i + 1]);
    }
    if i :| 0 < i < |events| && IsTerminal(events[i]) {
      assert IsTerminal(events[1..][i - 1]);
    }
  }

  lemma NothingEmitted()
    ensures AllPartial([])
  {
  }

  lemma FinalAfter(out: seq<Emit>, rest: seq<Emit>)
    ensures |out| == 1 && out[0].Done? ==> EndsOnce(out + [])
    ensures |out| <= 1 && AllPartial(out) && EndsOnce(rest) ==> EndsOnce(out + rest)
    ensures |out| <= 1 && AllPartial(out) && AllPartial(rest) ==> AllPartial(out + rest)
  {
  }

  /** A terminal event emits the final event and any other emits at most a partial one. */
  lemma AtMostOne(st: State, e: Event)
    ensures var out := Step(st, e).1;
            if IsTerminal(e) then |out| == 1 && out[0].Done? else |out| <= 1 && AllPartial(out)
  {
  }

  // ----- the text only grows

  /** Committed text is never taken back, whatever arrives. */
  lemma CommittedOnlyGrows(st: State, e: Event)
    ensures st.committed <= Step(st, e).0.committed
  {
    hide Join, JoinAll, Commit;
    CommitGrows(st);
    match e
    case ItemCompleted(_, text, phase) => CommitGrows(BeforeCompletion(st, text, phase));
    case TurnCompleted(_, _) => JoinAllGrows(CommitIfOpen(st).committed, CommitIfOpen(st).suppressed);
    case _ =>
  }

  lemma CommitGrows(st: State)
    ensures st.committed <= Commit(st).committed && st.committed <= CommitIfOpen(st).committed
  {
  }

  lemma {:induction false} JoinAllGrows(before: string, texts: seq<string>)
    ensures before <= JoinAll(before, texts)
  {
    if texts != [] {
      JoinAllGrows(before, texts[..|texts| - 1]);
    }
  }

  /** The open item shows text of its own. */
  predicate Shows(st: State) {
    Truthy(st.itemId) && st.itemPhase != Some(Commentary) && st.itemText != ""
  }

  /** The text that a reader has been shown, or would be by the next event. */
  function Shown(st: State): string {
    if Shows(st) then Join(st.committed, st.itemText) else st.committed
  }

  /** A completion agrees with what was streamed: it does not hide an item that shows text, and its
      text, if it has any, goes on from the streamed text. */
  predicate Consistent(st: State, e: Event) {
    e.ItemCompleted? && e.isAgent && Shows(st) ==>
      e.phase != Some(Commentary) && (e.text == "" || st.itemText <= e.text)
  }

  lemma JoinIsMonotone(before: string, a: string, b: string)
    ensures before <= Join(before, a)
    ensures a <= b <==> Join(before, a) <= Join(before, b)
    ensures a != "" ==> !(Join(before, a) <= before)
  {
    if before != "" {
      var x, y := Join(before, a), Join(before, b);
      assert x[|before| + 2..] == a && y[|before| + 2..] == b;
      if x <= y {
        assert a == y[..|x|][|before| + 2..];
      }
    }
  }

  lemma CommitKeepsShown(st: State)
    ensures Shown(st) <= Shown(CommitIfOpen(st)) && Shown(st) <= CommitIfOpen(st).committed
    ensures Shown(CommitIfOpen(st)) == CommitIfOpen(st).committed
  {
    hide Join;
    JoinIsMonotone(st.committed, st.itemText, st.itemText);
  }

  lemma DeltaKeepsShown(st: State, itemId: Maybe<string>, text: string)
    requires text != ""
    ensures Shown(st) <= Shown(AfterDelta(st, itemId, text))
  {
    hide Join;
    if Truthy(itemId) && itemId != st.itemId {
      CommitKeepsShown(st);
      JoinIsMonotone(CommitIfOpen(st).committed, "", "" + text);
    } else {
      JoinIsMonotone(st.committed, st.itemText, st.itemText + text);
    }
  }

  lemma CompletionKeepsShownIfConsistent(st: State, text: string, phase: Maybe<Phase>)
    ensures Consistent(st, ItemCompleted(true, text, phase))
            <==> Shown(st) <= Shown(Commit(BeforeCompletion(st, text, phase)))
  {
    hide Join;
    JoinIsMonotone(st.committed, st.itemText, Or(text, st.itemText));
    JoinIsMonotone(st.committed, Or(text, st.itemText), "");
  }

  /** An event takes back shown text exactly when it is a completion that disagrees. */
  lemma ShownGrowsExactlyIfConsistent(st: State, e: Event)
    ensures Consistent(st, e) <==> Shown(st) <= Shown(Step(st, e).0)
  {
    hide Step, Shown, Consistent;
    match e
    case ItemCompleted(isAgent, text, phase) => CompletionGrowsExactlyIf(st, isAgent, text, phase);
    case TurnCompleted(status, message) => TurnGrows(st, status, message);
    case _ => OtherEventGrows(st, e);
  }

  lemma CompletionGrowsExactlyIf(st: State, isAgent: bool, text: string, phase: Maybe<Phase>)
    ensures var e := ItemCompleted(isAgent, text, phase);
            Consistent(st, e) <==> Shown(st) <= Shown(Step(st, e).0)
  {
    hide Shown, Commit, BeforeCompletion, VisibleText, CommitShows;
    if isAgent {
      CompletionKeepsShownIfConsistent(st, text, phase);
    }
  }

  lemma TurnGrows(st: State, status: string, message: string)
    ensures var e := TurnCompleted(status, message);
            Consistent(st, e) && Shown(st) <= Shown(Step(st, e).0)
  {
    hide Join, JoinAll, Or;
    CommitKeepsShown(st);
    JoinAllGrows(CommitIfOpen(st).committed, CommitIfOpen(st).suppressed);
  }

  lemma OtherEventGrows(st: State, e: Event)
    requires !e.ItemCompleted? && !e.TurnCompleted?
    ensures Consistent(st, e) && Shown(st) <= Shown(Step(st, e).0)
  {
    hide Join, Or, VisibleText, AfterDelta, Commit;
    CommitKeepsShown(st);
    if e.Delta? && e.text != "" {
      DeltaKeepsShown(st, e.itemId, e.text);
    }
  }

  /** What is emitted is what is shown; only a final event may add a trailing blank line. */
  lemma EmitsShownText(st: State, e: Event)
    ensures forall o | o in Step(st, e).1 ::
              Shown(Step(st, e).0) <= o.text
              && (o.Partial? ==> o.text == Shown(Step(st, e).0))
  {
    hide Step, Shown;
    match e
    case Delta(itemId, text) => DeltaEmitsShown(st, itemId, text);
    case ItemCompleted(isAgent, text, phase) => CompletionEmitsShown(st, isAgent, text, phase);
    case TurnCompleted(status, message) => TurnEmitsShown(st, status, message);
    case _ => OtherEventEmitsShown(st, e);
  }

  lemma OtherEventEmitsShown(st: State, e: Event)
    requires !e.Delta? && !e.ItemCompleted? && !e.TurnCompleted?
    ensures var (s, out) := Step(st, e);
            forall o | o in out :: o.Done? && Shown(s) <= o.text
  {
    hide Shown, VisibleText, Or, CommitIfOpen;
    VisibleIsShown(st);
  }

  lemma DeltaEmitsShown(st: State, itemId: Maybe<string>, text: string)
    ensures var (s, out) := Step(st, Delta(itemId, text));
            forall o | o in out :: o == Partial(Shown(s))
  {
    hide Shown, VisibleText, AfterDelta;
    if text != "" {
      DeltaShowsItem(st, itemId, text);
    }
  }

  lemma CompletionEmitsShown(st: State, isAgent: bool, text: string, phase: Maybe<Phase>)
    ensures var (s, out) := Step(st, ItemCompleted(isAgent, text, phase));
            forall o | o in out :: o == Partial(Shown(s))
  {
    hide Shown, VisibleText, Commit, BeforeCompletion;
    CommitCloses(BeforeCompletion(st, text, phase));
    CommittedIsShown(Commit(BeforeCompletion(st, text, phase)));
  }

  lemma TurnEmitsShown(st: State, status: string, message: string)
    ensures var (s, out) := Step(st, TurnCompleted(status, message));
            forall o | o in out :: o.Done? && o.text == Shown(s)
  {
    hide Shown, VisibleText, AfterTurn, Or;
    TurnCloses(st, status);
    CommittedIsShown(AfterTurn(st, status));
  }

  lemma CommitCloses(st: State)
    ensures Commit(st).itemId == None && !Truthy(CommitIfOpen(st).itemId)
  {
  }

  lemma TurnCloses(st: State, status: string)
    ensures !Truthy(AfterTurn(st, status).itemId)
  {
    hide JoinAll, Join;
  }

  lemma CommittedIsShown(st: State)
    requires !Truthy(st.itemId)
    ensures Shown(st) == st.committed == VisibleText(st)
  {
  }

  lemma VisibleIsShown(st: State)
    ensures Shown(st) <= VisibleText(st)
  {
    hide Join;
    JoinIsMonotone(st.committed, st.itemText, st.itemText);
  }

  lemma DeltaShowsItem(st: State, itemId: Maybe<string>, text: string)
    requires text != ""
    ensures var s := AfterDelta(st, itemId, text);
            s.itemText != "" && (s.itemPhase != Some(Commentary) ==> VisibleText(s) == Shown(s))
  {
    hide Join, Commit;
  }

  ghost predicate ConsistentRun(st: State, events: seq<Event>)
    decreases |events|
  {
    events != [] ==>
      Consistent(st, events[0]) && (IsTerminal(events[0]) || ConsistentRun(Step(st, events[0]).0, events[1..]))
  }

  ghost predicate IsChain(from: string, out: seq<Emit>) {
    && (forall i | 0 <= i < |out| :: from <= out[i].text)
    && (forall i, j | 0 <= i < j < |out| :: out[i].text <= out[j].text)
  }

  /** In a consistent run every emitted text is a prefix of every later one, the final text included. */
  lemma {:induction false} EmittedTextIsPrefixChain(st: State, events: seq<Event>)
    requires ConsistentRun(st, events)
    ensures IsChain(Shown(st), Run(st, events))
    decreases |events|
  {
    hide Step, Shown, Consistent, IsChain;
    if events == [] {
      assert IsChain(Shown(st), []) by { NothingChained(Shown(st)); }
    } else {
      var e := events[0];
      var (s, out) := Step(st, e);
      assert Shown(st) <= Shown(s) by { ShownGrowsExactlyIfConsistent(st, e); }
      EmitsShownText(st, e);
      AtMostOne(st, e);
      if IsTerminal(e) {
        NothingChained(Shown(s));
        ChainGrows(Shown(st), Shown(s), out, []);
        assert out + [] == out;
      } else {
        EmittedTextIsPrefixChain(s, events[1..]);
        ChainGrows(Shown(st), Shown(s), out, Run(s, events[1..]));
      }
    }
  }

  lemma NothingChained(from: string)
    ensures IsChain(from, [])
  {
  }

  lemma ChainGrows(from: string, shown: string, out: seq<Emit>, rest: seq<Emit>)
    requires from <= shown && |out| <= 1 && forall o | o in out :: shown <= o.text && (o.Partial? ==> o.text == shown)
    requires IsChain(shown, rest) && (out != [] && out[0].Done? ==> rest == [])
    ensures IsChain(from, out + rest)
  {
    hide IsChain;
    if out == [] {
      assert out + rest == rest;
      ChainFrom(from, shown, rest);
    } else {
      assert out[0] in out && out == [out[0]];
      NothingChained(out[0].text);
      ChainCons(from, out[0], rest);
    }
  }

  lemma ChainFrom(from: string, shown: string, out: seq<Emit>)
    requires from <= shown && IsChain(shown, out)
    ensures IsChain(from, out)
  {
    forall i | 0 <= i < |out|
      ensures from <= out[i].text
    {
      assert shown <= out[i].text;
    }
  }

  lemma ChainCons(from: string, first: Emit, rest: seq<Emit>)
    requires from <= first.text && IsChain(first.text, rest)
    ensures IsChain(from, [first] + rest)
  {
    var out := [first] + rest;
    ChainFrom(from, first.text, rest);
    assert forall i | 0 < i < |out| :: out[i] == rest[i - 1];
  }

  /** The shown text grows at every event of the run, up to the terminal one. */
  ghost predicate ShownGrows(st: State, events: seq<Event>)
    decreases |events|
  {
    events != [] ==>
      Shown(st) <= Shown(Step(st, events[0]).0)
      && (IsTerminal(events[0]) || ShownGrows(Step(st, events[0]).0, events[1..]))
  }

  /** A run is consistent if and only if no event of it takes back shown text. */
  lemma {:induction false} RunIsConsistentExactlyIfShownGrows(st: State, events: seq<Event>)
    ensures ConsistentRun(st, events) <==> ShownGrows(st, events)
    decreases |events|
  {
    hide Step, Shown, Consistent, IsTerminal;
    if events != [] {
      ShownGrowsExactlyIfConsistent(st, events[0]);
      RunIsConsistentExactlyIfShownGrows(Step(st, events[0]).0, events[1..]);
    }
  }

  /** Text that streamed without a phase is taken back when its completion calls it commentary, and
      the turn then succeeds with an empty answer. */
  lemma LateReclassificationBlanksTheTurn()
    ensures Run(Start(""), [ItemStarted(true, Some("i"), None), Delta(Some("i"), "a"),
                            ItemCompleted(true, "a", Some(Commentary)), TurnCompleted("completed", "")])
         == [Partial("a"), Done("", true, "")]
  {
    var e0, e1, e2, e3 := ItemStarted(true, Some("i"), None), Delta(Some("i"), "a"),
                          ItemCompleted(true, "a", Some(Commentary)), TurnCompleted("completed", "");
    var s1 := Step(Start(""), e0).0;
    var s2 := Step(s1, e1).0;
    var s3 := Step(s2, e2).0;
    RunCons(Start(""), e0, [e1, e2, e3]);
    RunCons(s1, e1, [e2, e3]);
    RunCons(s2, e2, [e3]);
    RunCons(s3, e3, []);
    assert "" + "a" == "a";
  }

  // ----- lost notifications

  /** An item with the phase that its start carries and the phase that its completion carries. */
  datatype Item = Item(id: string, phase: Maybe<Phase>, donePhase: Maybe<Phase>, deltas: seq<string>)

  /** The phase of a completion wins over that of the start. */
  function FinalPhase(item: Item): Maybe<Phase> {
    if item.donePhase.Some? then item.donePhase else item.phase
  }

  function Concat(texts: seq<string>): string {
    if texts == [] then "" else Concat(texts[..|texts| - 1]) + texts[|texts| - 1]
  }

  /** What arrives of an item: all its deltas but no completion, or a completion and some deltas. */
  datatype Delivery = WithoutCompletion | WithCompletion(kept: seq<string>)

  ghost predicate Subsequence(part: seq<string>, whole: seq<string>) {
    if whole == [] then part == []
    else Subsequence(part, whole[..|whole| - 1])
         || (part != [] && part[|part| - 1] == whole[|whole| - 1]
             && Subsequence(part[..|part| - 1], whole[..|whole| - 1]))
  }

  /** A completion that gets lost has nothing to say about the phase. */
  ghost predicate IsDelivery(item: Item, d: Delivery) {
    && item.id != ""
    && (if d.WithCompletion? then Subsequence(d.kept, item.deltas) else FinalPhase(item) == item.phase)
  }

  function Streamed(item: Item, d: Delivery): seq<string> {
    if d.WithCompletion? then d.kept else item.deltas
  }

  /** Text of the item was streamed before the item was classified as commentary. */
  predicate StreamsTooEarly(item: Item, d: Delivery) {
    FinalPhase(item) == Some(Commentary) && item.phase != Some(Commentary) && Concat(Streamed(item, d)) != ""
  }

  function DeltaEvents(id: string, texts: seq<string>): seq<Event> {
    seq(|texts|, i requires 0 <= i < |texts| => Delta(Some(id), texts[i]))
  }

  function Wire(item: Item, d: Delivery): seq<Event> {
    [ItemStarted(true, Some(item.id), item.phase)]
    + match d
      case WithoutCompletion => DeltaEvents(item.id, item.deltas)
      case WithCompletion(kept) =>
        DeltaEvents(item.id, kept) + [ItemCompleted(true, Concat(item.deltas), item.donePhase)]
  }

  function WireAll(items: seq<Item>, ds: seq<Delivery>): seq<Event>
    requires |ds| == |items|
  {
    if items == [] then [] else
      WireAll(items[..|items| - 1], ds[..|items| - 1]) + Wire(items[|items| - 1], ds[|items| - 1])
  }

  /** Events that leave any state as it is and emit nothing. */
  predicate IsNoise(e: Event) {
    match e
    case ItemStarted(isAgent, _, _) => !isAgent
    case ItemCompleted(isAgent, _, _) => !isAgent
    case Delta(_, text) => text == ""
    case StartAcknowledged => true
    case Skipped => true
    case _ => false
  }

  function WithoutNoise(events: seq<Event>): seq<Event> {
    if events == [] then [] else
      WithoutNoise(events[..|events| - 1])
      + (if IsNoise(events[|events| - 1]) then [] else [events[|events| - 1]])
  }

  lemma WithoutNoiseSnoc(events: seq<Event>, e: Event)
    ensures WithoutNoise(events + [e]) == if IsNoise(e) then WithoutNoise(events) else WithoutNoise(events) + [e]
  {
    hide IsNoise;
    assert (events + [e])[..|events|] == events;
  }

  lemma NoiseChangesNothing(st: State, e: Event)
    requires IsNoise(e)
    ensures Step(st, e) == (st, [])
  {
  }

  lemma {:induction false} NoiseIsIgnored(st: State, events: seq<Event>)
    ensures StateAfter(st, events) == StateAfter(st, WithoutNoise(events))
  {
    hide Step, IsNoise;
    if events != [] {
      var front, last := events[..|events| - 1], events[|events| - 1];
      assert events == front + [last];
      NoiseIsIgnored(st, front);
      WithoutNoiseSnoc(front, last);
      StateAfterSnoc(st, front, last);
      StateAfterSnoc(st, WithoutNoise(front), last);
      if IsNoise(last) {
        NoiseChangesNothing(StateAfter(st, front), last);
      }
    }
  }

  /** What a turn amounts to between items: the state with the open item committed. */
  function Settled(st: State): State {
    CommitIfOpen(st).(itemId := None, itemText := "", itemPhase := None)
  }

  /** What one more item of that text adds. */
  function AddItem(st: State, phase: Maybe<Phase>, text: string): State {
    Commit(st.(itemText := text, itemPhase := phase))
  }

  /** The open item while its deltas arrive. */
  function Streaming(st: State, item: Item, text: string): State {
    st.(itemId := Some(item.id), itemText := text, itemPhase := item.phase,
        gotVisible := st.gotVisible || (text != "" && item.phase != Some(Commentary)))
  }

  lemma {:induction false} DeltasStream(st: State, item: Item, texts: seq<string>)
    requires item.id != ""
    ensures StateAfter(Streaming(st, item, ""), DeltaEvents(item.id, texts)) == Streaming(st, item, Concat(texts))
  {
    if texts != [] {
      var front, last := texts[..|texts| - 1], texts[|texts| - 1];
      DeltasStream(st, item, front);
      assert DeltaEvents(item.id, texts) == DeltaEvents(item.id, front) + [Delta(Some(item.id), last)];
      StateAfterSnoc(Streaming(st, item, ""), DeltaEvents(item.id, front), Delta(Some(item.id), last));
      DeltaStreams(st, item, Concat(front), last);
    }
  }

  lemma DeltaStreams(st: State, item: Item, text: string, more: string)
    requires item.id != ""
    ensures Step(Streaming(st, item, text), Delta(Some(item.id), more)).0 == Streaming(st, item, text + more)
  {
    if more == "" {
      assert text + more == text;
    }
  }

  /** Only empty deltas can be left of a text that is empty. */
  lemma {:induction false} PartOfNothing(part: seq<string>, whole: seq<string>)
    requires Subsequence(part, whole) && Concat(whole) == ""
    ensures Concat(part) == ""
    decreases |whole|
  {
    if whole != [] {
      var front := whole[..|whole| - 1];
      if Subsequence(part, front) {
        PartOfNothing(part, front);
      } else {
        PartOfNothing(part[..|part| - 1], front);
      }
    }
  }

  lemma SettleStreaming(st: State, item: Item, text: string)
    requires item.id != "" && st.itemId == None && st.itemText == "" && st.itemPhase == None
    ensures Settled(Streaming(st, item, text)) == AddItem(st, item.phase, text)
  {
  }

  lemma CompleteStreaming(st: State, item: Item, text: string, whole: string)
    requires item.id != "" && st.itemId == None && st.itemText == "" && st.itemPhase == None
    requires whole == "" ==> text == ""
    ensures Settled(Step(Streaming(st, item, text), ItemCompleted(true, whole, item.donePhase)).0)
         == Marked(AddItem(st, FinalPhase(item), whole), FinalPhase(item) == Some(Commentary)
                                                         && item.phase != Some(Commentary) && text != "")
  {
  }

  /** The state after an item, with the flag for visible text set if it streamed too early. */
  function Marked(st: State, early: bool): State {
    st.(gotVisible := st.gotVisible || early)
  }

  lemma OpenItem(st: State, item: Item)
    ensures Step(st, ItemStarted(true, Some(item.id), item.phase)).0 == Streaming(Settled(st), item, "")
  {
  }

  /** However an item is delivered, it adds the same text on the same side; only the flag for visible
      text depends on what was streamed. */
  lemma DeliveryDoesNotMatter(st: State, item: Item, d: Delivery)
    requires IsDelivery(item, d)
    ensures Settled(StateAfter(st, Wire(item, d)))
         == Marked(AddItem(Settled(st), FinalPhase(item), Concat(item.deltas)), StreamsTooEarly(item, d))
  {
    hide Step, StateAfter, DeltaEvents, Concat, Streaming, AddItem;
    var started := ItemStarted(true, Some(item.id), item.phase);
    var s := Settled(st);
    OpenItem(st, item);
    assert StateAfter(st, [started]) == Streaming(s, item, "") by {
      StateAfterOne(st, started);
    }
    match d
    case WithoutCompletion =>
      StateAfterConcat(st, [started], DeltaEvents(item.id, item.deltas));
      DeltasStream(s, item, item.deltas);
      SettleStreaming(s, item, Concat(item.deltas));
    case WithCompletion(kept) =>
      var completed := ItemCompleted(true, Concat(item.deltas), item.donePhase);
      assert Wire(item, d) == ([started] + DeltaEvents(item.id, kept)) + [completed];
      StateAfterConcat(st, [started], DeltaEvents(item.id, kept));
      StateAfterSnoc(st, [started] + DeltaEvents(item.id, kept), completed);
      DeltasStream(s, item, kept);
      if Concat(item.deltas) == "" {
        PartOfNothing(kept, item.deltas);
      }
      CompleteStreaming(s, item, Concat(kept), Concat(item.deltas));
  }

  // ----- the final text

  predicate IsCommentary(item: Item) {
    FinalPhase(item) == Some(Commentary)
  }

  predicate AnyTooEarly(items: seq<Item>, ds: seq<Delivery>)
    requires |ds| == |items|
  {
    exists i :: 0 <= i < |items| && StreamsTooEarly(items[i], ds[i])
  }

  /** The texts of the items on one side of the distinction, in order, empty ones left out. */
  function Texts(items: seq<Item>, commentary: bool): seq<string> {
    if items == [] then [] else
      var last := items[|items| - 1];
      Texts(items[..|items| - 1], commentary)
      + (if IsCommentary(last) == commentary && Concat(last.deltas) != "" then [Concat(last.deltas)] else [])
  }

  /** The visible items after the notice, with blank lines between them; only when there are none,
      the commentary instead. */
  function FinalText(notice: string, items: seq<Item>): string {
    JoinAll(notice, if Texts(items, false) != [] then Texts(items, false) else Texts(items, true))
  }

  lemma JoinAllSnoc(before: string, texts: seq<string>, t: string)
    ensures JoinAll(before, texts + [t]) == Join(JoinAll(before, texts), t)
  {
    assert (texts + [t])[..|texts|] == texts;
  }

  lemma {:induction false} ItemsAddUp(notice: string, items: seq<Item>, ds: seq<Delivery>)
    requires |ds| == |items| && forall i | 0 <= i < |items| :: IsDelivery(items[i], ds[i])
    ensures Settled(StateAfter(Start(notice), WireAll(items, ds)))
         == State(JoinAll(notice, Texts(items, false)), Texts(items, false) != [] || AnyTooEarly(items, ds),
                  Texts(items, true), None, "", None)
  {
    hide Concat, Wire, Join, StateAfter, Texts, StreamsTooEarly, IsDelivery;
    assert Texts([], false) == [] && Texts([], true) == [] by { NoTexts(); }
    if items == [] {
      assert StateAfter(Start(notice), WireAll(items, ds)) == Start(notice) by { StateAfterNone(Start(notice)); }
    } else {
      var n := |items| - 1;
      ItemsAddUp(notice, items[..n], ds[..n]);
      var before := StateAfter(Start(notice), WireAll(items[..n], ds[..n]));
      StateAfterConcat(Start(notice), WireAll(items[..n], ds[..n]), Wire(items[n], ds[n]));
      DeliveryDoesNotMatter(before, items[n], ds[n]);
      JoinAllSnoc(notice, Texts(items[..n], false), Concat(items[n].deltas));
      TextsStep(items, false);
      TextsStep(items, true);
      AnyTooEarlyStep(items, ds);
    }
  }

  lemma AnyTooEarlyStep(items: seq<Item>, ds: seq<Delivery>)
    requires items != [] && |ds| == |items|
    ensures var n := |items| - 1;
            AnyTooEarly(items, ds) <==> AnyTooEarly(items[..n], ds[..n]) || StreamsTooEarly(items[n], ds[n])
  {
    hide StreamsTooEarly;
    var n := |items| - 1;
    if AnyTooEarly(items[..n], ds[..n]) {
      var i :| 0 <= i < n && StreamsTooEarly(items[..n][i], ds[..n][i]);
      assert StreamsTooEarly(items[i], ds[i]);
    }
    if i :| 0 <= i < n && StreamsTooEarly(items[i], ds[i]) {
      assert StreamsTooEarly(items[..n][i], ds[..n][i]);
    }
  }

  lemma NoTexts()
    ensures Texts([], false) == [] && Texts([], true) == []
  {
  }

  lemma TextsStep(items: seq<Item>, commentary: bool)
    requires items != []
    ensures var front, last := items[..|items| - 1], items[|items| - 1];
            Texts(items, commentary) == if IsCommentary(last) == commentary && Concat(last.deltas) != ""
                                        then Texts(front, commentary) + [Concat(last.deltas)]
                                        else Texts(front, commentary)
  {
    hide Concat;
  }

  lemma StateAfterNone(st: State)
    ensures StateAfter(st, []) == st
  {
  }

  lemma TurnEnds(st: State)
    ensures Step(st, TurnCompleted("completed", "")).1
         == [Done(if !Settled(st).gotVisible && Settled(st).suppressed != []
                  then JoinAll(Settled(st).committed, Settled(st).suppressed) else Settled(st).committed, true, "")]
  {
  }

  /** After any items, however delivered and whatever other messages are mixed in, the turn answers with
      what the items spell out, the commentary standing in for visible text that there is none of, if
      and only if there is visible text, or no commentary, or no item streamed text before it was
      classified as commentary. Otherwise it succeeds with the notice alone. */
  lemma AnswerIsCompleteExactlyIf(notice: string, items: seq<Item>, ds: seq<Delivery>, events: seq<Event>)
    requires |ds| == |items| && forall i | 0 <= i < |items| :: IsDelivery(items[i], ds[i])
    requires (forall e | e in events :: !IsTerminal(e)) && WithoutNoise(events) == WithoutNoise(WireAll(items, ds))
    ensures var out := Run(Start(notice), events + [TurnCompleted("completed", "")]);
            var complete := Texts(items, false) != [] || Texts(items, true) == [] || !AnyTooEarly(items, ds);
            && out != []
            && (out[|out| - 1] == Done(FinalText(notice, items), true, "") <==> complete)
            && (!complete ==> out[|out| - 1] == Done(notice, true, ""))
  {
    hide Step, StateAfter, WireAll, Texts, Settled, JoinAll, Run, AnyTooEarly, IsDelivery, IsNoise, IsTerminal;
    var st, last := Start(notice), TurnCompleted("completed", "");
    assert IsTerminal(last) by { CompletionIsTerminal(last); }
    RunToEnd(st, events, last);
    NoiseIsIgnored(st, events);
    NoiseIsIgnored(st, WireAll(items, ds));
    ItemsAddUp(notice, items, ds);
    TurnEnds(StateAfter(st, events));
    NothingJoined(notice);
    assert forall t | t in Texts(items, true) :: t != "" by { TextsAreNotEmpty(items, true); }
    JoinedIsLonger(notice, Texts(items, true));
  }

  lemma CompletionIsTerminal(e: Event)
    requires e.TurnCompleted?
    ensures IsTerminal(e)
  {
  }

  lemma {:induction false} JoinedIsLonger(before: string, texts: seq<string>)
    requires forall t | t in texts :: t != ""
    ensures |JoinAll(before, texts)| >= |before| + |texts|
  {
    if texts != [] {
      var front, last := texts[..|texts| - 1], texts[|texts| - 1];
      assert last in texts && forall t | t in front :: t in texts;
      JoinedIsLonger(before, front);
    }
  }

  lemma {:induction false} TextsAreNotEmpty(items: seq<Item>, commentary: bool)
    ensures forall t | t in Texts(items, commentary) :: t != ""
  {
    hide Concat, IsCommentary;
    if items != [] {
      TextsAreNotEmpty(items[..|items| - 1], commentary);
      TextsStep(items, commentary);
    }
  }

  /** When an item that ends as commentary was started as such, losing, for each item, its completion or
      any of its deltas leaves the answer unchanged: it is what the items spell out. */
  lemma LostNotificationsDoNotMatter(notice: string, items: seq<Item>, ds: seq<Delivery>, events: seq<Event>)
    requires |ds| == |items| && forall i | 0 <= i < |items| :: IsDelivery(items[i], ds[i])
    requires forall i | 0 <= i < |items| :: IsCommentary(items[i]) ==> items[i].phase == Some(Commentary)
    requires (forall e | e in events :: !IsTerminal(e)) && WithoutNoise(events) == WithoutNoise(WireAll(items, ds))
    ensures var out := Run(Start(notice), events + [TurnCompleted("completed", "")]);
            out != [] && out[|out| - 1] == Done(FinalText(notice, items), true, "")
  {
    hide WireAll, Run, Concat, WithoutNoise, Texts, IsDelivery, IsTerminal, JoinAll;
    AnswerIsCompleteExactlyIf(notice, items, ds, events);
    assert !AnyTooEarly(items, ds);
  }

  lemma NothingJoined(before: string)
    ensures JoinAll(before, []) == before
  {
  }
}

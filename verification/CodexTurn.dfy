/** The agentMessage state machine of one Codex turn (src/kai/codex.py, lines 958 to 1282). */
module CodexTurn {
  import opened Options

  datatype Phase = Commentary | FinalAnswer

  /** What the read loop meets: a protocol message, a line it skips, or the end of reading.
      `phase` is None for a phase that is absent or unknown. */
  datatype Event =
    | ItemStarted(isAgent: bool, id: Maybe<string>, phase: Maybe<Phase>)
    | Delta(itemId: Maybe<string>, text: string)
    | ItemCompleted(isAgent: bool, text: string, phase: Maybe<Phase>)
    | TurnCompleted(status: string, message: string)
    | ErrorNotification(message: string)
    | StartAcknowledged
    | StartError(message: string)
    | Skipped
    | IdleTimeout
    | ReadTimeout
    | Eof
    | Crash(message: string)

  /** A stream event; the last one carries the response, whose text is the same. */
  datatype Emit = Partial(text: string) | Done(text: string, success: bool, error: string)

  datatype State = State(committed: string, gotVisible: bool, suppressed: seq<string>,
                         itemId: Maybe<string>, itemText: string, itemPhase: Maybe<Phase>)

  function Start(notice: string): State {
    State(notice, false, [], None, "", None)
  }

  predicate Truthy(id: Maybe<string>) {
    id.Some? && id.value != ""
  }

  /** Two parts with a blank line between them, unless there is nothing before. */
  function Join(before: string, text: string): string {
    if before != "" then before + "\n\n" + text else text
  }

  function JoinAll(before: string, texts: seq<string>): string {
    if texts == [] then before else Join(JoinAll(before, texts[..|texts| - 1]), texts[|texts| - 1])
  }

  function Or(message: string, fallback: string): string {
    if message != "" then message else fallback
  }

  // ----- the machine as a function

  function Commit(st: State): State {
    var s := if st.itemText == "" then st
             else if st.itemPhase == Some(Commentary) then st.(suppressed := st.suppressed + [st.itemText])
             else st.(committed := Join(st.committed, st.itemText), gotVisible := true);
    s.(itemId := None, itemText := "", itemPhase := None)
  }

  predicate CommitShows(st: State) {
    st.itemText != "" && st.itemPhase != Some(Commentary)
  }

  function CommitIfOpen(st: State): State {
    if Truthy(st.itemId) then Commit(st) else st
  }

  function VisibleText(st: State): string {
    if !Truthy(st.itemId) || st.itemPhase == Some(Commentary) then st.committed
    else Join(st.committed, st.itemText)
  }

  function AfterDelta(st: State, itemId: Maybe<string>, text: string): State {
    var s := if Truthy(itemId) && itemId != st.itemId
             then CommitIfOpen(st).(itemId := itemId, itemText := "", itemPhase := None) else st;
    var t := s.(itemText := s.itemText + text);
    if t.itemPhase == Some(Commentary) then t else t.(gotVisible := true)
  }

  function BeforeCompletion(st: State, text: string, phase: Maybe<Phase>): State {
    st.(itemText := Or(text, st.itemText), itemPhase := if phase.Some? then phase else st.itemPhase)
  }

  function AfterTurn(st: State, status: string): State {
    var s := CommitIfOpen(st);
    if status == "completed" && !s.gotVisible && s.suppressed != []
    then s.(committed := JoinAll(s.committed, s.suppressed), gotVisible := true) else s
  }

  function Step(st: State, e: Event): (State, seq<Emit>) {
    match e
    case ItemStarted(isAgent, id, phase) =>
      (if isAgent then CommitIfOpen(st).(itemId := id, itemText := "", itemPhase := phase) else st, [])
    case Delta(itemId, text) =>
      if text == "" then (st, []) else
        var s := AfterDelta(st, itemId, text);
        (s, if s.itemPhase == Some(Commentary) then [] else [Partial(VisibleText(s))])
    case ItemCompleted(isAgent, text, phase) =>
      if !isAgent then (st, []) else
        var s := BeforeCompletion(st, text, phase);
        (Commit(s), if CommitShows(s) then [Partial(VisibleText(Commit(s)))] else [])
    case TurnCompleted(status, message) =>
      var s := AfterTurn(st, status);
      (s, [if status == "completed" then Done(s.committed, true, "")
           else Done(s.committed, false, Or(message, "Codex turn ended with status=" + status))])
    case ErrorNotification(message) => (st, [Done(VisibleText(st), false, Or(message, "Codex error"))])
    case StartError(message) => (st, [Done(VisibleText(st), false, message)])
    case IdleTimeout => (st, [Done(VisibleText(st), false, "Codex interaction timed out (no output)")])
    case ReadTimeout => (st, [Done(VisibleText(st), false, "Codex timed out")])
    case Eof =>
      (st, [Done(VisibleText(st), st.gotVisible, if st.gotVisible then "" else "Codex process ended unexpectedly")])
    case Crash(message) => (st, [Done(VisibleText(st), false, message)])
    case StartAcknowledged => (st, [])
    case Skipped => (st, [])
  }

  predicate IsTerminal(e: Event) {
    e.TurnCompleted? || e.ErrorNotification? || e.StartError? || e.IdleTimeout? || e.ReadTimeout? || e.Eof? || e.Crash?
  }

  /** The turn ends with the first terminal event. */
  function Run(st: State, events: seq<Event>): seq<Emit>
    decreases |events|
  {
    if events == [] then [] else
      var (s, out) := Step(st, events[0]);
      out + (if IsTerminal(events[0]) then [] else Run(s, events[1..]))
  }

  // ----- runs

  /** The state after a list of events without a terminal one. */
  function StateAfter(st: State, events: seq<Event>): State {
    if events == [] then st else Step(StateAfter(st, events[..|events| - 1]), events[|events| - 1]).0
  }

  lemma StateAfterSnoc(st: State, events: seq<Event>, e: Event)
    ensures StateAfter(st, events + [e]) == Step(StateAfter(st, events), e).0
  {
    hide Step;
    assert (events + [e])[..|events|] == events;
  }

  lemma {:induction false} StateAfterConcat(st: State, a: seq<Event>, b: seq<Event>)
    ensures StateAfter(st, a + b) == StateAfter(StateAfter(st, a), b)
  {
    hide Step;
    if b == [] {
      assert a + b == a;
    } else {
      var front, last := b[..|b| - 1], b[|b| - 1];
      StateAfterConcat(st, a, front);
      assert a + b == (a + front) + [last] && b == front + [last];
      StateAfterSnoc(st, a + front, last);
      StateAfterSnoc(StateAfter(st, a), front, last);
    }
  }

  lemma StateAfterOne(st: State, e: Event)
    ensures StateAfter(st, [e]) == Step(st, e).0
  {
    assert [] + [e] == [e];
    StateAfterSnoc(st, [], e);
  }

  lemma RunCons(st: State, e: Event, rest: seq<Event>)
    ensures Run(st, [e] + rest) == Step(st, e).1 + (if IsTerminal(e) then [] else Run(Step(st, e).0, rest))
  {
    assert ([e] + rest)[1..] == rest;
  }

  lemma {:induction false} RunToEnd(st: State, events: seq<Event>, last: Event)
    requires IsTerminal(last) && forall e | e in events :: !IsTerminal(e)
    ensures exists out :: Run(st, events + [last]) == out + Step(StateAfter(st, events), last).1
    decreases |events|
  {
    hide Step, IsTerminal;
    if events == [] {
      assert events + [last] == [last] + [];
      RunCons(st, last, []);
      assert Run(st, events + [last]) == [] + Step(StateAfter(st, events), last).1;
    } else {
      var e, rest := events[0], events[1..];
      var s := Step(st, e).0;
      assert events + [last] == [e] + (rest + [last]) && events == [e] + rest;
      RunCons(st, e, rest + [last]);
      RunToEnd(s, rest, last);
      var out :| Run(s, rest + [last]) == out + Step(StateAfter(s, rest), last).1;
      StateAfterConcat(st, [e], rest);
      StateAfterOne(st, e);
      assert Run(st, events + [last]) == (Step(st, e).1 + out) + Step(StateAfter(st, events), last).1;
    }
  }

  // ----- what has been shown, read off the events

  predicate HasText(e: Event) {
    e.Delta? && e.text != ""
  }

  /** Another item begins, the open one ends, or text arrives under another id. */
  predicate EndsItem(e: Event, id: Maybe<string>) {
    || (e.ItemStarted? && e.isAgent) || (e.ItemCompleted? && e.isAgent)
    || (HasText(e) && Truthy(e.itemId) && e.itemId != id)
  }

  /** A commentary item starts at j and is still the open one when event k arrives. */
  ghost predicate InCommentary(events: seq<Event>, j: int, k: int) {
    && 0 <= j < k <= |events|
    && events[j].ItemStarted? && events[j].isAgent && events[j].phase == Some(Commentary)
    && forall m | j < m < k :: !EndsItem(events[m], events[j].id)
  }

  ghost predicate StreamsBetween(events: seq<Event>, j: int, k: int) {
    exists m :: 0 <= j < m < k <= |events| && HasText(events[m])
  }

  ghost predicate IsInCommentary(events: seq<Event>, k: int) {
    exists j :: InCommentary(events, j, k)
  }

  /** Event k shows text: a delta that is not for a commentary item, or a completion that does not
      end as commentary and has text of its own, or reclassifies commentary that was streamed. */
  ghost predicate ShowsText(events: seq<Event>, k: int)
    requires 0 <= k < |events|
  {
    match events[k]
    case Delta(_, text) => text != "" && !IsInCommentary(events, k + 1)
    case ItemCompleted(isAgent, text, phase) =>
      && isAgent && phase != Some(Commentary) && (phase == None ==> !IsInCommentary(events, k))
      && (text != "" || exists j :: InCommentary(events, j, k) && StreamsBetween(events, j, k))
    case _ => false
  }

  ghost predicate HasShownText(events: seq<Event>, n: int) {
    exists k :: 0 <= k < n <= |events| && ShowsText(events, k)
  }

  /** The commentary item that is open when event k arrives starts at j, or at -1 for none. */
  ghost predicate OpensAt(events: seq<Event>, k: int, j: int) {
    if j == -1 then !IsInCommentary(events, k) else InCommentary(events, j, k)
  }

  /** The state agrees with the events read so far. */
  ghost predicate Tracks(st: State, events: seq<Event>, k: int, j: int) {
    && OpensAt(events, k, j) && (st.itemPhase == Some(Commentary) <==> j >= 0)
    && (j >= 0 ==> st.itemId == events[j].id && (st.itemText != "" <==> StreamsBetween(events, j, k)))
    && (st.itemText != "" && st.itemPhase != Some(Commentary) ==> st.gotVisible)
    && (st.gotVisible <==> HasShownText(events, k))
  }

  function OpenAfter(events: seq<Event>, k: int, j: int): int
    requires 0 <= k < |events| && j < |events| && (j >= 0 ==> events[j].ItemStarted?)
  {
    var e := events[k];
    if e.ItemStarted? && e.isAgent && e.phase == Some(Commentary) then k
    else if j >= 0 && !EndsItem(e, events[j].id) then j
    else -1
  }

  lemma OpenStep(events: seq<Event>, k: int, j: int)
    requires 0 <= k < |events| && OpensAt(events, k, j)
    ensures -1 <= j < k && (j >= 0 ==> events[j].ItemStarted?) && OpensAt(events, k + 1, OpenAfter(events, k, j))
  {
    hide EndsItem;
    var n := k + 1;
    if i :| InCommentary(events, i, n) && i != k {
      assert InCommentary(events, i, k);
      if j >= 0 {
        OneCommentary(events, i, j, k);
      }
    }
  }

  lemma OneCommentary(events: seq<Event>, i: int, j: int, k: int)
    requires InCommentary(events, i, k) && InCommentary(events, j, k)
    ensures i == j
  {
  }

  lemma ShowsExactly(events: seq<Event>, k: int, j: int)
    requires 0 <= k < |events| && OpensAt(events, k, j)
    ensures -1 <= j < k && (j >= 0 ==> events[j].ItemStarted?)
    ensures ShowsText(events, k) <==>
      match events[k]
      case Delta(_, text) => text != "" && OpenAfter(events, k, j) == -1
      case ItemCompleted(isAgent, text, phase) =>
        && isAgent && phase != Some(Commentary) && (phase == None ==> j == -1)
        && (text != "" || (j >= 0 && StreamsBetween(events, j, k)))
      case _ => false
  {
    hide EndsItem, StreamsBetween;
    OpenStep(events, k, j);
    forall i | InCommentary(events, i, k)
      ensures i == j
    {
      if j >= 0 {
        OneCommentary(events, i, j, k);
      }
    }
  }

  lemma HasShownStep(events: seq<Event>, k: int)
    requires 0 <= k < |events|
    ensures HasShownText(events, k + 1) <==> HasShownText(events, k) || ShowsText(events, k)
  {
    hide ShowsText;
  }

  lemma StreamsStep(events: seq<Event>, j: int, k: int)
    requires 0 <= j <= k < |events|
    ensures StreamsBetween(events, j, k + 1) <==> StreamsBetween(events, j, k) || (j < k && HasText(events[k]))
  {
    hide HasText;
  }

  lemma TracksStep(st: State, events: seq<Event>, k: int, j: int)
    requires 0 <= k < |events| && !IsTerminal(events[k]) && Tracks(st, events, k, j)
    ensures -1 <= j < k && (j >= 0 ==> events[j].ItemStarted?)
    ensures Tracks(Step(st, events[k]).0, events, k + 1, OpenAfter(events, k, j))
  {
    hide OpensAt, StreamsBetween, HasShownText, ShowsText, Join;
    OpenStep(events, k, j);
    ShowsExactly(events, k, j);
    HasShownStep(events, k);
    if j >= 0 {
      StreamsStep(events, j, k);
    }
    StreamsStep(events, k, k);
    NothingStreamsAt(events, k);
  }

  lemma NothingStreamsAt(events: seq<Event>, k: int)
    ensures !StreamsBetween(events, k, k)
  {
  }

  lemma {:induction false} ShownIsTracked(notice: string, events: seq<Event>, k: nat) returns (j: int)
    requires k <= |events| && forall i | 0 <= i < k :: !IsTerminal(events[i])
    ensures Tracks(StateAfter(Start(notice), events[..k]), events, k, j)
  {
    hide Step, IsTerminal, Tracks;
    if k == 0 {
      j := -1;
      NothingTracked(notice, events);
    } else {
      var before := ShownIsTracked(notice, events, k - 1);
      TracksStep(StateAfter(Start(notice), events[..k - 1]), events, k - 1, before);
      assert events[..k] == events[..k - 1] + [events[k - 1]];
      StateAfterSnoc(Start(notice), events[..k - 1], events[k - 1]);
      j := OpenAfter(events, k - 1, before);
    }
  }

  lemma NothingTracked(notice: string, events: seq<Event>)
    ensures Tracks(StateAfter(Start(notice), events[..0]), events, 0, -1)
  {
  }

  // ----- how a turn ends

  /** The turn meets its first terminal event at k. */
  ghost predicate EndsAt(events: seq<Event>, k: int) {
    0 <= k < |events| && IsTerminal(events[k]) && forall i | 0 <= i < k :: !IsTerminal(events[i])
  }

  /** A turn succeeds when it is completed as such, or when reading ends after text was shown. */
  ghost predicate Succeeds(events: seq<Event>, k: int)
    requires 0 <= k < |events|
  {
    (events[k].TurnCompleted? && events[k].status == "completed") || (events[k].Eof? && HasShownText(events, k))
  }

  /** The message that a terminal event brings along. */
  function Message(e: Event): string {
    match e
    case TurnCompleted(_, message) => message
    case ErrorNotification(message) => message
    case StartError(message) => message
    case Crash(message) => message
    case _ => ""
  }

  /** The final event reports the outcome, without an error on success and with the message of the
      terminal event, if it has one, on failure. */
  ghost predicate Reports(events: seq<Event>, k: int, last: Emit)
    requires 0 <= k < |events|
  {
    && last.Done? && last.success == Succeeds(events, k)
    && (last.success ==> last.error == "")
    && (!last.success && Message(events[k]) != "" ==> last.error == Message(events[k]))
    && (!last.success && last.error == "" ==> events[k].StartError? || events[k].Crash?)
  }

  lemma TerminalReports(st: State, events: seq<Event>, k: int, j: int)
    requires 0 <= k < |events| && IsTerminal(events[k]) && Tracks(st, events, k, j)
    ensures |Step(st, events[k]).1| == 1 && Reports(events, k, Step(st, events[k]).1[0])
  {
    hide OpensAt, HasShownText, StreamsBetween, VisibleText, AfterTurn;
  }

  /** A turn that meets a terminal event ends with a final event that reports the outcome. */
  ghost predicate ReportsItsEnd(events: seq<Event>, out: seq<Emit>) {
    forall k | EndsAt(events, k) :: out != [] && Reports(events, k, out[|out| - 1])
  }

  /** So does every turn. */
  lemma FinalEventReports(notice: string, events: seq<Event>)
    ensures ReportsItsEnd(events, Run(Start(notice), events))
  {
    hide Reports, IsTerminal, Run;
    forall k | EndsAt(events, k)
      ensures 0 <= k < |events|
      ensures var out := Run(Start(notice), events); out != [] && Reports(events, k, out[|out| - 1])
    {
      LastReports(notice, events, k);
    }
  }

  lemma LastReports(notice: string, events: seq<Event>, k: int)
    requires EndsAt(events, k)
    ensures var out := Run(Start(notice), events); out != [] && Reports(events, k, out[|out| - 1])
  {
    hide Step, Tracks, Reports, IsTerminal;
    var front, last := events[..k], events[k];
    var st := StateAfter(Start(notice), front);
    var j := ShownIsTracked(notice, events, k);
    TerminalReports(st, events, k, j);
    RunToEnd(Start(notice), front, last);
    var out :| Run(Start(notice), front + [last]) == out + Step(st, last).1;
    assert events == (front + [last]) + events[k + 1..];
    RunStops(Start(notice), front + [last], events[k + 1..]);
  }

  /** What comes after a terminal event is not read. */
  lemma {:induction false} RunStops(st: State, events: seq<Event>, more: seq<Event>)
    requires exists e | e in events :: IsTerminal(e)
    ensures Run(st, events + more) == Run(st, events)
    decreases |events|
  {
    hide Step, IsTerminal;
    var e, rest := events[0], events[1..];
    assert events + more == [e] + (rest + more) && events == [e] + rest;
    RunCons(st, e, rest + more);
    RunCons(st, e, rest);
    if !IsTerminal(e) {
      assert exists f | f in rest :: IsTerminal(f);
      RunStops(Step(st, e).0, rest, more);
    }
  }

  // ----- the machine as the source writes it

  class Turn {
    var committedText: string
    var gotVisibleModelText: bool
    var suppressedCommentary: seq<string>
    var currentItemId: Maybe<string>
    var currentItemText: string
    var currentItemPhase: Maybe<Phase>

    ghost function Now(): State
      reads this
    {
      State(committedText, gotVisibleModelText, suppressedCommentary, currentItemId, currentItemText, currentItemPhase)
    }

    constructor (notice: string)
      ensures Now() == Start(notice)
    {
      committedText := notice;
      gotVisibleModelText := false;
      suppressedCommentary := [];
      currentItemId := None;
      currentItemText := "";
      currentItemPhase := None;
    }

    method JoinVisible(text: string)
      modifies this`committedText
      ensures committedText == Join(old(committedText), text)
    {
      committedText := if committedText != "" then committedText + "\n\n" + text else text;
    }

    method CommitCurrentItem() returns (visibleChanged: bool)
      modifies this
      ensures Now() == Commit(old(Now())) && visibleChanged == CommitShows(old(Now()))
    {
      visibleChanged := false;
      if currentItemText != "" {
        if currentItemPhase == Some(Commentary) {
          suppressedCommentary := suppressedCommentary + [currentItemText];
        } else {
          JoinVisible(currentItemText);
          gotVisibleModelText := true;
          visibleChanged := true;
        }
      }
      currentItemId := None;
      currentItemText := "";
      currentItemPhase := None;
    }

    method Visible() returns (text: string)
      ensures text == VisibleText(Now())
    {
      if !Truthy(currentItemId) || currentItemPhase == Some(Commentary) {
        return committedText;
      }
      if committedText == "" {
        return currentItemText;
      }
      return committedText + "\n\n" + currentItemText;
    }

    method OnItemStarted(id: Maybe<string>, phase: Maybe<Phase>)
      modifies this
      ensures Now() == Step(old(Now()), ItemStarted(true, id, phase)).0
    {
      if Truthy(currentItemId) {
        var _ := CommitCurrentItem();
      }
      currentItemId := id;
      currentItemText := "";
      currentItemPhase := phase;
    }

    method OnDelta(itemId: Maybe<string>, text: string) returns (out: seq<Emit>)
      modifies this
      ensures (Now(), out) == Step(old(Now()), Delta(itemId, text))
    {
      out := [];
      if text != "" {
        if Truthy(itemId) && itemId != currentItemId {
          if Truthy(currentItemId) {
            var _ := CommitCurrentItem();
          }
          currentItemId := itemId;
          currentItemText := "";
          currentItemPhase := None;
        }
        currentItemText := currentItemText + text;
        if currentItemPhase != Some(Commentary) {
          gotVisibleModelText := true;
          var visible := Visible();
          out := [Partial(visible)];
        }
      }
    }

    method OnItemCompleted(text: string, phase: Maybe<Phase>) returns (out: seq<Emit>)
      modifies this
      ensures (Now(), out) == Step(old(Now()), ItemCompleted(true, text, phase))
    {
      out := [];
      if text != "" {
        currentItemText := text;
      }
      if phase.Some? {
        currentItemPhase := phase;
      }
      var changed := CommitCurrentItem();
      if changed {
        var visible := Visible();
        out := [Partial(visible)];
      }
    }

    method OnTurnCompleted(status: string, message: string) returns (out: seq<Emit>)
      modifies this
      ensures (Now(), out) == Step(old(Now()), TurnCompleted(status, message))
    {
      if Truthy(currentItemId) {
        var _ := CommitCurrentItem();
      }
      if status == "completed" && !gotVisibleModelText && suppressedCommentary != [] {
        ghost var s := Now();
        for i := 0 to |suppressedCommentary|
          invariant Now() == s.(committed := JoinAll(s.committed, s.suppressed[..i]))
        {
          assert suppressedCommentary[..i + 1][..i] == suppressedCommentary[..i];
          JoinVisible(suppressedCommentary[i]);
        }
        assert s.suppressed[..|s.suppressed|] == s.suppressed;
        gotVisibleModelText := true;
      }
      if status == "completed" {
        return [Done(committedText, true, "")];
      }
      var error := if message != "" then message else "Codex turn ended with status=" + status;
      return [Done(committedText, false, error)];
    }

    method Handle(e: Event) returns (out: seq<Emit>)
      modifies this
      ensures (Now(), out) == Step(old(Now()), e)
    {
      match e
      case ItemStarted(isAgent, id, phase) =>
        if isAgent {
          OnItemStarted(id, phase);
        }
        out := [];
      case Delta(itemId, text) => out := OnDelta(itemId, text);
      case ItemCompleted(isAgent, text, phase) =>
        out := [];
        if isAgent {
          out := OnItemCompleted(text, phase);
        }
      case TurnCompleted(status, message) => out := OnTurnCompleted(status, message);
      case StartAcknowledged => out := [];
      case Skipped => out := [];
      case _ =>
        var visible := Visible();
        match e
        case ErrorNotification(message) =>
          out := [Done(visible, false, if message != "" then message else "Codex error")];
        case StartError(message) => out := [Done(visible, false, message)];
        case IdleTimeout => out := [Done(visible, false, "Codex interaction timed out (no output)")];
        case ReadTimeout => out := [Done(visible, false, "Codex timed out")];
        case Eof =>
          var error := if gotVisibleModelText then "" else "Codex process ended unexpectedly";
          out := [Done(visible, gotVisibleModelText, error)];
        case Crash(message) => out := [Done(visible, false, message)];
    }
  }

  /** The read loop, on the events that one turn meets. */
  method StreamTurn(notice: string, events: seq<Event>) returns (emitted: seq<Emit>)
    ensures emitted == Run(Start(notice), events)
    ensures ReportsItsEnd(events, emitted)
  {
    hide Step, ReportsItsEnd, IsTerminal;
    FinalEventReports(notice, events);
    var turn := new Turn(notice);
    emitted := [];
    assert events[0..] == events;
    for i := 0 to |events|
      invariant emitted + Run(turn.Now(), events[i..]) == Run(Start(notice), events)
    {
      assert events[i..][0] == events[i] && events[i..][1..] == events[i + 1..];
      var out := turn.Handle(events[i]);
      emitted := emitted + out;
      if IsTerminal(events[i]) {
        return;
      }
    }
  }
}

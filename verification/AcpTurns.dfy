/** Turns over one ACP subprocess (src/kai/acp.py, lines 78 to 260, 936 to 1066, 1109 to 1126 and
    1168 to 1591): the pipe is a queue, requests, responses and notifications are those of sections 4,
    4.1 and 5 of the JSON-RPC 2.0 specification. */
module AcpTurns {
  import opened Options

  /** A line on stdout. `chunk` is the text that the backend's hook extracts from a notification, ""
      for one that carries none; a result carries the session id, if it has one; a request of the
      server tells whether the backend's hook has an answer to it. */
  datatype Message =
    | NotJson
    | Notification(chunk: string)
    | ServerRequest(id: int, answered: bool)
    | Result(id: int, session: Maybe<string>)
    | Error(id: int, message: string)

  type Combine = (string, string) -> string

  /** How reading ends when the pipe runs dry before the turn does. */
  datatype Fate = TimedOut | Idle | Eof | Broken(message: string)

  /** What the world does during one `send`: whether the session is recycled first, the lines of the
      handshake, whether the prompt can be written, the lines that arrive before the turn ends or the
      pipe runs dry, how it ends in the latter case, and the lines that arrive too late to be read. The
      text begins with a seed, the notice about dropped images or nothing. */
  datatype Turn = Turn(recycle: bool, hello: seq<Message>, writes: bool, seed: string, arriving: seq<Message>,
                       fate: Fate, late: seq<Message>)

  /** What `send` ends with: a report that the start failed, an exception that nothing catches, or a reply. */
  datatype Reply = NotStarted | Uncaught | Reply(text: string, success: bool, error: string)

  /** How starting the process ends. An answer without a session id raises a KeyError. */
  datatype Startup = Up | Refused | NoSession

  datatype Process = Dead | Alive(nextId: int, pipe: seq<Message>)

  // ----- folding chunks

  /** The chunks with text in them, in order. */
  function Texts(ms: seq<Message>): seq<string> {
    if ms == [] then [] else
      Texts(ms[..|ms| - 1])
      + (if ms[|ms| - 1].Notification? && ms[|ms| - 1].chunk != "" then [ms[|ms| - 1].chunk] else [])
  }

  function Fold(combine: Combine, seed: string, texts: seq<string>): string {
    if texts == [] then seed else combine(Fold(combine, seed, texts[..|texts| - 1]), texts[|texts| - 1])
  }

  predicate EndsTurn(m: Message, promptId: int) {
    (m.Result? || m.Error?) && m.id == promptId
  }

  /** The position of the response to the prompt, or the number of messages. */
  function EndOf(ms: seq<Message>, promptId: int): (k: nat)
    ensures k <= |ms| && (k < |ms| ==> EndsTurn(ms[k], promptId))
    ensures forall i | 0 <= i < k :: !EndsTurn(ms[i], promptId)
  {
    if ms == [] || EndsTurn(ms[0], promptId) then 0 else 1 + EndOf(ms[1..], promptId)
  }

  lemma TextsSnoc(ms: seq<Message>, m: Message)
    ensures Texts(ms + [m]) == if m.Notification? && m.chunk != "" then Texts(ms) + [m.chunk] else Texts(ms)
  {
    assert (ms + [m])[..|ms|] == ms;
  }

  lemma FoldSnoc(combine: Combine, seed: string, texts: seq<string>, t: string)
    ensures Fold(combine, seed, texts + [t]) == combine(Fold(combine, seed, texts), t)
  {
    assert (texts + [t])[..|texts|] == texts;
  }

  lemma {:induction false} TextsConcat(a: seq<Message>, b: seq<Message>)
    ensures Texts(a + b) == Texts(a) + Texts(b)
  {
    if b == [] {
      assert a + b == a;
    } else {
      var front, last := b[..|b| - 1], b[|b| - 1];
      assert a + b == (a + front) + [last] && b == front + [last];
      TextsConcat(a, front);
      TextsSnoc(a + front, last);
      TextsSnoc(front, last);
    }
  }

  lemma {:induction false} EndOfIs(ms: seq<Message>, promptId: int, k: nat)
    requires k <= |ms| && (k < |ms| ==> EndsTurn(ms[k], promptId))
    requires forall i | 0 <= i < k :: !EndsTurn(ms[i], promptId)
    ensures EndOf(ms, promptId) == k
  {
    if k > 0 {
      EndOfIs(ms[1..], promptId, k - 1);
    }
  }

  // ----- one turn, as a function

  /** What `read_result` leaves in the pipe after the first line that carries the id, if one does. */
  function AfterAnswer(pipe: seq<Message>, id: int): Maybe<(Maybe<string>, seq<Message>)> {
    if pipe == [] then None
    else match pipe[0]
      case Error(i, _) => if i == id then None else AfterAnswer(pipe[1..], id)
      case Result(i, session) => if i == id then Some((session, pipe[1..])) else AfterAnswer(pipe[1..], id)
      case ServerRequest(i, _) => if i == id then Some((None, pipe[1..])) else AfterAnswer(pipe[1..], id)
      case _ => AfterAnswer(pipe[1..], id)
  }

  /** Spawning a process and its two-step handshake; the process lives on when that fails. */
  function Handshake(hello: seq<Message>): (Startup, Process) {
    var first := AfterAnswer(hello, 1);
    if first.None? then (Refused, Alive(2, Unread(hello, 1))) else
      var second := AfterAnswer(first.value.1, 2);
      if second.None? then (Refused, Alive(3, Unread(first.value.1, 2)))
      else (if second.value.0.Some? then Up else NoSession, Alive(3, second.value.1))
  }

  /** The session id in the answer to the second request. */
  function SessionOf(hello: seq<Message>): Maybe<string> {
    var first := AfterAnswer(hello, 1);
    if first.None? then None else
      var second := AfterAnswer(first.value.1, 2);
      if second.None? then None else second.value.0
  }

  /** What is left unread when no answer was found: what follows an error response, or nothing. */
  function Unread(pipe: seq<Message>, id: int): seq<Message> {
    if pipe == [] then []
    else if pipe[0].Error? && pipe[0].id == id then pipe[1..]
    else Unread(pipe[1..], id)
  }

  function Started(p: Process, t: Turn): (Startup, Process) {
    if p.Dead? || t.recycle then Handshake(t.hello) else (Up, p)
  }

  function FateError(fate: Fate): string {
    match fate
    case TimedOut => "timed out"
    case Idle => "interaction timed out (no output)"
    case Eof => "process ended unexpectedly"
    case Broken(message) => message
  }

  /** The prompt and the reading of its answer, on the messages that are in the pipe or arrive. */
  function Answer(combine: Combine, nextId: int, ms: seq<Message>, seed: string, fate: Fate): (Process, Reply) {
    var k := EndOf(ms, nextId);
    if k == |ms| then
      (Dead, Reply(Fold(combine, seed, Texts(ms)), fate.Eof? && Texts(ms) != [],
                   if fate.Eof? && Texts(ms) != [] then "" else FateError(fate)))
    else if ms[k].Result? then
      (Alive(nextId + 1, []), Reply(Fold(combine, seed, Texts(ms)), true, ""))
    else
      (Alive(nextId + 1, ms[k + 1..]), Reply(Fold(combine, seed, Texts(ms[..k])), false, ms[k].message))
  }

  /** Lines of a dead process reach nobody. */
  function Arrives(p: Process, late: seq<Message>): Process {
    if p.Dead? then Dead else p.(pipe := p.pipe + late)
  }

  function Send(combine: Combine, p: Process, t: Turn): (Process, Reply) {
    var (ok, q) := Started(p, t);
    if !ok.Up? || q.Dead? then (Arrives(q, t.late), if ok.NoSession? then Uncaught else NotStarted)
    else if !t.writes then (Dead, Reply("", false, "process died, restarting on next message"))
    else
      var (r, reply) := Answer(combine, q.nextId, q.pipe + t.arriving, t.seed, t.fate);
      (Arrives(r, t.late), reply)
  }

  /** The texts of the stream events: the text so far after every chunk up to the response. Chunks that
      are drained after the response show in the final text only. */
  function Partials(combine: Combine, seed: string, texts: seq<string>): seq<string> {
    if texts == [] then [] else
      Partials(combine, seed, texts[..|texts| - 1]) + [Fold(combine, seed, texts)]
  }

  function Shown(combine: Combine, nextId: int, ms: seq<Message>, seed: string): seq<string> {
    Partials(combine, seed, Texts(ms[..EndOf(ms, nextId)]))
  }

  function ShownBySend(combine: Combine, p: Process, t: Turn): seq<string> {
    var (ok, q) := Started(p, t);
    if !ok.Up? || q.Dead? || !t.writes then [] else Shown(combine, q.nextId, q.pipe + t.arriving, t.seed)
  }

  /** The requests of the server that are answered, in order. */
  function Answered(ms: seq<Message>): seq<int> {
    if ms == [] then [] else
      var last := ms[|ms| - 1];
      Answered(ms[..|ms| - 1]) + (if last.ServerRequest? && last.answered then [last.id] else [])
  }

  /** A turn answers the requests that arrive before its response, and none of those drained after it. */
  function AnsweredBySend(p: Process, t: Turn): seq<int> {
    var (ok, q) := Started(p, t);
    if !ok.Up? || q.Dead? || !t.writes then [] else
      var ms := q.pipe + t.arriving;
      Answered(ms[..EndOf(ms, q.nextId)])
  }

  function Run(combine: Combine, p: Process, turns: seq<Turn>): seq<Reply>
    decreases |turns|
  {
    if turns == [] then [] else
      var (q, reply) := Send(combine, p, turns[0]);
      [reply] + Run(combine, q, turns[1..])
  }

  // ----- what the parts of a turn come to, read off the lines

  /** The chunks are the texts of the notifications that have one, in order. */
  lemma TextsExactly(before: seq<Message>, m: Message, after: seq<Message>)
    ensures Texts(before + [m] + after)
         == Texts(before) + (if m.Notification? && m.chunk != "" then [m.chunk] else []) + Texts(after)
    ensures Texts([]) == []
  {
    hide Texts;
    TextsConcat(before + [m], after);
    TextsSnoc(before, m);
    assert Texts([]) == [] by { TextsOfNothing(); }
  }

  lemma TextsOfNothing()
    ensures Texts([]) == []
  {
  }

  /** The chunks are taken from the first to the last. */
  lemma FoldExactly(combine: Combine, seed: string, before: seq<string>, chunk: string, after: seq<string>)
    ensures Fold(combine, seed, before + [chunk] + after)
         == Fold(combine, combine(Fold(combine, seed, before), chunk), after)
    ensures Fold(combine, seed, []) == seed
  {
    FoldConcat(combine, seed, before + [chunk], after);
    FoldSnoc(combine, seed, before, chunk);
  }

  /** Stream event i shows the first i + 1 chunks. */
  lemma {:induction false} PartialsExactly(combine: Combine, seed: string, texts: seq<string>)
    ensures |Partials(combine, seed, texts)| == |texts|
    ensures forall i | 0 <= i < |texts| :: Partials(combine, seed, texts)[i] == Fold(combine, seed, texts[..i + 1])
  {
    if texts != [] {
      var n := |texts| - 1;
      PartialsExactly(combine, seed, texts[..n]);
      assert texts[..n + 1] == texts;
      forall i | 0 <= i < n
        ensures Partials(combine, seed, texts)[i] == Fold(combine, seed, texts[..i + 1])
      {
        assert texts[..n][..i + 1] == texts[..i + 1];
      }
    }
  }

  /** The answered requests, in order. */
  lemma {:induction false} AnsweredExactly(a: seq<Message>, b: seq<Message>)
    ensures Answered(a + b) == Answered(a) + Answered(b)
    ensures forall m :: Answered([m]) == match m case ServerRequest(id, true) => [id] case _ => []
  {
    assert forall m: Message :: [m][..0] == [];
    assert Answered([]) == [];
    if b == [] {
      assert a + b == a;
    } else {
      var n := |b| - 1;
      assert (a + b)[..|a| + n] == a + b[..n];
      AnsweredExactly(a, b[..n]);
    }
  }

  predicate HasId(m: Message, id: int) {
    match m
    case Result(i, _) => i == id
    case Error(i, _) => i == id
    case ServerRequest(i, _) => i == id
    case _ => false
  }

  /** Line k is the first from line `from` on that carries the id. */
  ghost predicate IsFirstWithId(ms: seq<Message>, from: int, k: int, id: int) {
    0 <= from <= k < |ms| && HasId(ms[k], id) && forall i | from <= i < k :: !HasId(ms[i], id)
  }

  /** Reading stops at the first line with the id. It fails at an error, or without such a line. */
  lemma {:induction false} AnswerIsTheFirstWithId(pipe: seq<Message>, id: int)
    ensures (forall k :: !IsFirstWithId(pipe, 0, k, id)) ==> AfterAnswer(pipe, id) == None && Unread(pipe, id) == []
    ensures forall k | IsFirstWithId(pipe, 0, k, id) ::
              match pipe[k]
              case Error(_, _) => AfterAnswer(pipe, id) == None && Unread(pipe, id) == pipe[k + 1..]
              case Result(_, session) => AfterAnswer(pipe, id) == Some((session, pipe[k + 1..]))
              case _ => AfterAnswer(pipe, id) == Some((None, pipe[k + 1..]))
  {
    if pipe != [] {
      var rest := pipe[1..];
      if HasId(pipe[0], id) {
        assert IsFirstWithId(pipe, 0, 0, id);
      } else {
        AnswerIsTheFirstWithId(rest, id);
        forall k
          ensures IsFirstWithId(pipe, 0, k, id) <==> k > 0 && IsFirstWithId(rest, 0, k - 1, id)
        {
          FirstWithIdInRest(pipe, k, id);
        }
        assert forall k | 0 < k < |pipe| :: pipe[k] == rest[k - 1] && pipe[k + 1..] == rest[k..];
        forall k | 0 <= k < |rest|
          ensures IsFirstWithId(rest, 0, k, id) ==> IsFirstWithId(pipe, 0, k + 1, id)
        {
          FirstWithIdInRest(pipe, k + 1, id);
        }
      }
    }
  }

  ghost predicate IsAnswer(ms: seq<Message>, from: int, k: int, id: int) {
    IsFirstWithId(ms, from, k, id) && !ms[k].Error?
  }

  /** Both requests of the handshake are answered, at j and at k. */
  ghost predicate AnswersBoth(hello: seq<Message>, j: int, k: int) {
    IsAnswer(hello, 0, j, 1) && IsAnswer(hello, j + 1, k, 2)
  }

  /** A start is refused unless both requests are answered, and by no error. It succeeds if the second
      answer names a session, and everything after that answer stays unread. */
  ghost predicate IsStart(hello: seq<Message>, ok: Startup, p: Process, session: Maybe<string>) {
    && (ok.Refused? <==> forall j, k :: !AnswersBoth(hello, j, k))
    && (forall j, k | AnswersBoth(hello, j, k) ::
          && p == Alive(3, hello[k + 1..])
          && (ok.Up? <==> hello[k].Result? && hello[k].session.Some?)
          && (ok.Up? ==> session == hello[k].session))
  }

  lemma FirstWithIdLater(ms: seq<Message>, from: nat, k: int, id: int)
    requires from <= |ms|
    ensures IsFirstWithId(ms, from, k, id) <==> IsFirstWithId(ms[from..], 0, k - from, id)
  {
    hide HasId;
    var rest := ms[from..];
    assert forall i | from <= i < |ms| :: ms[i] == rest[i - from];
    assert forall i | 0 <= i < |rest| :: rest[i] == ms[from + i];
  }

  lemma OneAnswer(ms: seq<Message>, from: int, j: int, k: int, id: int)
    requires IsAnswer(ms, from, j, id) && IsAnswer(ms, from, k, id)
    ensures j == k
  {
  }

  lemma AnswerAt(pipe: seq<Message>, id: int) returns (k: int)
    ensures AfterAnswer(pipe, id).Some? ==> 0 <= k < |pipe| && IsAnswer(pipe, 0, k, id)
    ensures AfterAnswer(pipe, id).Some? ==> AfterAnswer(pipe, id).value.1 == pipe[k + 1..]
    ensures AfterAnswer(pipe, id).Some? ==>
              AfterAnswer(pipe, id).value.0 == (if pipe[k].Result? then pipe[k].session else None)
    ensures AfterAnswer(pipe, id).None? ==> forall i :: !IsAnswer(pipe, 0, i, id)
  {
    hide HasId, AfterAnswer;
    AnswerIsTheFirstWithId(pipe, id);
    k := if i :| IsFirstWithId(pipe, 0, i, id) then i else -1;
  }

  lemma SecondAnswer(hello: seq<Message>, j: int, k: int)
    requires 0 <= j < |hello|
    ensures IsAnswer(hello, j + 1, k, 2) <==> IsAnswer(hello[j + 1..], 0, k - (j + 1), 2)
  {
    FirstWithIdLater(hello, j + 1, k, 2);
  }

  lemma HandshakeIsStart(hello: seq<Message>)
    ensures IsStart(hello, Handshake(hello).0, Handshake(hello).1, SessionOf(hello))
  {
    hide AfterAnswer, Unread, IsAnswer;
    var j := AnswerAt(hello, 1);
    var first := AfterAnswer(hello, 1);
    if first.Some? {
      var rest := hello[j + 1..];
      var m := AnswerAt(rest, 2);
      forall i, k | AnswersBoth(hello, i, k)
        ensures i == j && IsAnswer(rest, 0, k - (j + 1), 2)
      {
        OneAnswer(hello, 0, i, j, 1);
        SecondAnswer(hello, j, k);
      }
      var second := AfterAnswer(rest, 2);
      if second.Some? {
        SecondAnswer(hello, j, j + 1 + m);
        assert AnswersBoth(hello, j, j + 1 + m);
        forall k | AnswersBoth(hello, j, k)
          ensures k == j + 1 + m
        {
          OneAnswer(rest, 0, k - (j + 1), m, 2);
        }
        assert rest[m + 1..] == hello[j + 1 + m + 1..] && rest[m] == hello[j + 1 + m];
      }
    }
  }

  lemma FailedStart(hello: seq<Message>, session: Maybe<string>)
    requires !Handshake(hello).0.Up?
    ensures IsStart(hello, Handshake(hello).0, Handshake(hello).1, session)
  {
    hide Handshake, AnswersBoth;
    HandshakeIsStart(hello);
  }

  /** Line k is the response to the prompt, the first one there is. */
  ghost predicate IsResponse(ms: seq<Message>, k: int, promptId: int) {
    && 0 <= k < |ms| && (ms[k].Result? || ms[k].Error?) && ms[k].id == promptId
    && forall i | 0 <= i < k && (ms[i].Result? || ms[i].Error?) :: ms[i].id != promptId
  }

  ghost predicate SaysSomething(ms: seq<Message>) {
    exists i :: 0 <= i < |ms| && ms[i].Notification? && ms[i].chunk != ""
  }

  /** A turn succeeds when its response is a result, or when its process ends by itself after some text.
      An error response names the error, and so does a broken pipe. */
  ghost predicate IsOutcome(ms: seq<Message>, promptId: int, fate: Fate, reply: Reply) {
    && reply.Reply? && (reply.success ==> reply.error == "")
    && (forall k | IsResponse(ms, k, promptId) ::
          reply.success == ms[k].Result? && (ms[k].Error? ==> reply.error == ms[k].message))
    && ((forall k :: !IsResponse(ms, k, promptId)) ==>
          && reply.success == (fate.Eof? && SaysSomething(ms))
          && (!reply.success ==> if fate.Broken? then reply.error == fate.message else reply.error != ""))
  }

  lemma {:induction false} SaysSomethingExactly(ms: seq<Message>)
    ensures SaysSomething(ms) <==> Texts(ms) != []
  {
    if ms != [] {
      var n := |ms| - 1;
      SaysSomethingExactly(ms[..n]);
      if i :| 0 <= i < n && ms[i].Notification? && ms[i].chunk != "" {
        assert ms[..n][i] == ms[i];
      }
    }
  }

  lemma AnswerIsOutcome(combine: Combine, promptId: int, ms: seq<Message>, seed: string, fate: Fate)
    ensures IsOutcome(ms, promptId, fate, Answer(combine, promptId, ms, seed, fate).1)
  {
    hide Texts, Fold, SaysSomething;
    SaysSomethingExactly(ms);
    var k := EndOf(ms, promptId);
    if k < |ms| {
      assert IsResponse(ms, k, promptId);
    }
    forall i | IsResponse(ms, i, promptId)
      ensures i == k
    {
      assert EndsTurn(ms[i], promptId);
    }
  }

  /** The reply to a turn that is sent is the outcome of its lines; a start that fails is reported. */
  ghost predicate IsTurn(p: Process, t: Turn, reply: Reply) {
    var starts := p.Dead? || t.recycle;
    && (starts && (forall j, k :: !AnswersBoth(t.hello, j, k)) ==> reply == NotStarted)
    && (forall j, k | starts && AnswersBoth(t.hello, j, k) ::
          if t.hello[k].Result? && t.hello[k].session.Some?
          then t.writes ==> IsOutcome(t.hello[k + 1..] + t.arriving, 3, t.fate, reply)
          else reply == Uncaught)
    && (!starts && t.writes ==> IsOutcome(p.pipe + t.arriving, p.nextId, t.fate, reply))
  }

  lemma SendIsTurn(combine: Combine, p: Process, t: Turn)
    ensures IsTurn(p, t, Send(combine, p, t).1)
  {
    hide Handshake, Answer, IsOutcome, AnswersBoth;
    HandshakeIsStart(t.hello);
    var (ok, q) := Started(p, t);
    if q.Alive? {
      AnswerIsOutcome(combine, q.nextId, q.pipe + t.arriving, t.seed, t.fate);
    }
  }

  lemma FirstWithIdInRest(pipe: seq<Message>, k: int, id: int)
    requires pipe != [] && !HasId(pipe[0], id)
    ensures IsFirstWithId(pipe, 0, k, id) <==> k > 0 && IsFirstWithId(pipe[1..], 0, k - 1, id)
  {
    hide HasId;
    var rest := pipe[1..];
    assert forall i | 0 < i < |pipe| :: pipe[i] == rest[i - 1];
    assert forall i | 0 <= i < |rest| :: rest[i] == pipe[i + 1];
  }

  // ----- the backend as the source writes it

  lemma NothingRead(combine: Combine, seed: string, all: seq<Message>)
    ensures Texts(all[..0]) == [] && Fold(combine, seed, []) == seed && Partials(combine, seed, []) == []
    ensures Answered(all[..0]) == []
  {
  }

  lemma ReadOne(combine: Combine, seed: string, all: seq<Message>, read: nat)
    requires read < |all|
    ensures var texts, m := Texts(all[..read]), all[read];
            var next := Texts(all[..read + 1]);
            if m.Notification? && m.chunk != ""
            then && next != [] && Fold(combine, seed, next) == combine(Fold(combine, seed, texts), m.chunk)
                 && Partials(combine, seed, next) == Partials(combine, seed, texts) + [Fold(combine, seed, next)]
            else next == texts
  {
    hide Texts, Fold;
    var texts, m := Texts(all[..read]), all[read];
    assert all[..read + 1] == all[..read] + [m];
    TextsSnoc(all[..read], m);
    if m.Notification? && m.chunk != "" {
      FoldSnoc(combine, seed, texts, m.chunk);
      assert (texts + [m.chunk])[..|texts|] == texts;
    }
  }

  lemma AnswerOne(all: seq<Message>, read: nat)
    requires read < |all|
    ensures Answered(all[..read + 1])
         == Answered(all[..read]) + (if all[read].ServerRequest? && all[read].answered then [all[read].id] else [])
  {
    assert all[..read + 1][..read] == all[..read];
  }

  lemma AnsweredAt(combine: Combine, promptId: int, all: seq<Message>, k: nat, seed: string, fate: Fate)
    requires k < |all| && EndsTurn(all[k], promptId) && forall i | 0 <= i < k :: !EndsTurn(all[i], promptId)
    ensures var before := Fold(combine, seed, Texts(all[..k]));
            Answer(combine, promptId, all, seed, fate)
            == (if all[k].Result? then
                  (Alive(promptId + 1, []), Reply(Fold(combine, before, Texts(all[k + 1..])), true, ""))
                else (Alive(promptId + 1, all[k + 1..]), Reply(before, false, all[k].message)))
            && Shown(combine, promptId, all, seed) == Partials(combine, seed, Texts(all[..k]))
  {
    hide Texts, Fold;
    EndOfIs(all, promptId, k);
    assert all[..k + 1] == all[..k] + [all[k]] && all == all[..k + 1] + all[k + 1..];
    TextsSnoc(all[..k], all[k]);
    TextsConcat(all[..k + 1], all[k + 1..]);
    FoldConcat(combine, seed, Texts(all[..k]), Texts(all[k + 1..]));
  }

  lemma NeverAnswered(combine: Combine, promptId: int, all: seq<Message>, seed: string, fate: Fate)
    requires forall i | 0 <= i < |all| :: !EndsTurn(all[i], promptId)
    ensures var got := fate.Eof? && Texts(all) != [];
            Answer(combine, promptId, all, seed, fate)
            == (Dead, Reply(Fold(combine, seed, Texts(all)), got, if got then "" else FateError(fate)))
            && Shown(combine, promptId, all, seed) == Partials(combine, seed, Texts(all))
  {
    hide Texts, Fold, FateError;
    assert all[..|all|] == all;
    EndOfIs(all, promptId, |all|);
  }

  class AcpBackend {
    var alive: bool
    var sessionId: Maybe<string>
    var nextId: int
    var pipe: seq<Message>
    const combine: Combine

    ghost function Now(): Process
      reads this
    {
      if alive then Alive(nextId, pipe) else Dead
    }

    constructor (combine: Combine)
      ensures Now() == Dead && this.combine == combine
    {
      alive := false;
      sessionId := None;
      nextId := 1;
      pipe := [];
      this.combine := combine;
    }

    method Kill()
      modifies this
      ensures Now() == Dead && sessionId == None && pipe == []
    {
      alive := false;
      sessionId := None;
      pipe := [];
    }

    /** Every request takes a fresh id. */
    method WriteRpc() returns (id: int)
      modifies this`nextId
      ensures id == old(nextId) && nextId == id + 1
    {
      id := nextId;
      nextId := nextId + 1;
    }

    method ReadLine() returns (m: Message)
      requires pipe != []
      modifies this`pipe
      ensures m == old(pipe)[0] && pipe == old(pipe)[1..]
    {
      m := pipe[0];
      pipe := pipe[1..];
    }

    method ReadResult(expectedId: int) returns (answered: bool, session: Maybe<string>)
      modifies this`pipe
      ensures answered == AfterAnswer(old(pipe), expectedId).Some?
      ensures answered ==> (session, pipe) == AfterAnswer(old(pipe), expectedId).value
      ensures !answered ==> pipe == Unread(old(pipe), expectedId)
    {
      while pipe != []
        invariant AfterAnswer(pipe, expectedId) == AfterAnswer(old(pipe), expectedId)
        invariant Unread(pipe, expectedId) == Unread(old(pipe), expectedId)
        decreases |pipe|
      {
        var m := ReadLine();
        match m
        case Error(id, _) =>
          if id == expectedId {
            return false, None;
          }
        case Result(id, s) =>
          if id == expectedId {
            return true, s;
          }
        case ServerRequest(id, _) =>
          if id == expectedId {
            return true, None;
          }
        case _ =>
      }
      return false, None;
    }

    method EnsureStarted(hello: seq<Message>) returns (ok: Startup)
      modifies this
      ensures (ok, Now()) == if old(alive) then (Up, old(Now())) else Handshake(hello)
      ensures ok.Up? ==> alive
      ensures sessionId == if old(alive) || !ok.Up? then old(sessionId) else SessionOf(hello)
      ensures !old(alive) ==> IsStart(hello, ok, Now(), sessionId)
    {
      hide IsStart;
      forall session: Maybe<string> | !Handshake(hello).0.Up?
        ensures IsStart(hello, Handshake(hello).0, Handshake(hello).1, session)
      {
        FailedStart(hello, session);
      }
      HandshakeIsStart(hello);
      if alive {
        return Up;
      }
      alive := true;
      pipe := hello;
      nextId := 1;
      var initializeId := WriteRpc();
      var answered, _ := ReadResult(initializeId);
      if !answered {
        return Refused;
      }
      var sessionNewId := WriteRpc();
      var session;
      answered, session := ReadResult(sessionNewId);
      if !answered {
        return Refused;
      }
      if session.None? {
        return NoSession;
      }
      sessionId := session;
      ok := Up;
    }

    method DrainLateText(accumulated: string) returns (text: string)
      modifies this`pipe
      ensures text == Fold(combine, accumulated, Texts(old(pipe))) && pipe == []
    {
      text := accumulated;
      ghost var all, read := pipe, 0;
      assert all[..0] == [];
      while pipe != []
        invariant 0 <= read <= |all| && pipe == all[read..]
        invariant text == Fold(combine, accumulated, Texts(all[..read]))
        decreases |pipe|
      {
        var m := ReadLine();
        assert all[..read + 1] == all[..read] + [m];
        TextsSnoc(all[..read], m);
        if m.Notification? && m.chunk != "" {
          FoldSnoc(combine, accumulated, Texts(all[..read]), m.chunk);
          text := combine(text, m.chunk);
        }
        read := read + 1;
      }
      assert all[..|all|] == all;
    }

    method ReadAnswer(promptId: int, seed: string, fate: Fate)
      returns (reply: Reply, shown: seq<string>, answered: seq<int>)
      requires alive && nextId == promptId + 1
      modifies this
      ensures (Now(), reply) == Answer(combine, promptId, old(pipe), seed, fate)
      ensures IsOutcome(old(pipe), promptId, fate, reply)
      ensures shown == Shown(combine, promptId, old(pipe), seed)
      ensures answered == Answered(old(pipe)[..EndOf(old(pipe), promptId)])
    {
      hide Answer, Texts, Fold, FateError, Partials, Answered, IsOutcome;
      AnswerIsOutcome(combine, promptId, pipe, seed, fate);
      var accumulated, gotModelText := seed, false;
      shown, answered := [], [];
      ghost var all, read := pipe, 0;
      NothingRead(combine, seed, all);
      while pipe != []
        invariant alive && nextId == promptId + 1 && 0 <= read <= |all| && pipe == all[read..]
        invariant accumulated == Fold(combine, seed, Texts(all[..read]))
        invariant gotModelText <==> Texts(all[..read]) != []
        invariant shown == Partials(combine, seed, Texts(all[..read])) && answered == Answered(all[..read])
        invariant forall i | 0 <= i < read :: !EndsTurn(all[i], promptId)
        decreases |pipe|
      {
        var m := ReadLine();
        ReadOne(combine, seed, all, read);
        AnswerOne(all, read);
        match m {
        case Notification(chunk) =>
          if chunk != "" {
            accumulated := combine(accumulated, chunk);
            gotModelText := true;
            shown := shown + [accumulated];
          }
        case Result(id, _) =>
          if id == promptId {
            AnsweredAt(combine, promptId, all, read, seed, fate);
            var text := DrainLateText(accumulated);
            return Reply(text, true, ""), shown, answered;
          }
        case Error(id, message) =>
          if id == promptId {
            AnsweredAt(combine, promptId, all, read, seed, fate);
            return Reply(accumulated, false, message), shown, answered;
          }
        case ServerRequest(id, hasAnswer) =>
          if hasAnswer {
            answered := answered + [id];
          }
        case _ =>
        }
        read := read + 1;
      }
      assert all[..|all|] == all;
      NeverAnswered(combine, promptId, all, seed, fate);
      Kill();
      reply := Reply(accumulated, fate.Eof? && gotModelText, if fate.Eof? && gotModelText then "" else FateError(fate));
    }

    method SendTurn(t: Turn) returns (reply: Reply, shown: seq<string>, answered: seq<int>)
      modifies this
      ensures (Now(), reply) == Send(combine, old(Now()), t)
      ensures shown == ShownBySend(combine, old(Now()), t) && answered == AnsweredBySend(old(Now()), t)
      ensures IsTurn(old(Now()), t, reply)
    {
      hide Answer, Handshake, Shown, Texts, Fold, SessionOf, Answered, IsTurn, IsStart, IsOutcome;
      SendIsTurn(combine, Now(), t);
      shown, answered := [], [];
      if t.recycle && alive {
        Kill();
      }
      var ok := EnsureStarted(t.hello);
      if !ok.Up? {
        reply := if ok.NoSession? then Uncaught else NotStarted;
      } else if !t.writes {
        Kill();
        reply := Reply("", false, "process died, restarting on next message");
      } else {
        var promptId := WriteRpc();
        pipe := pipe + t.arriving;
        reply, shown, answered := ReadAnswer(promptId, t.seed, t.fate);
      }
      if alive {
        pipe := pipe + t.late;
      }
    }
  }

  lemma {:induction false} FoldConcat(combine: Combine, seed: string, a: seq<string>, b: seq<string>)
    ensures Fold(combine, seed, a + b) == Fold(combine, Fold(combine, seed, a), b)
  {
    if b == [] {
      assert a + b == a;
    } else {
      var front, last := b[..|b| - 1], b[|b| - 1];
      assert a + b == (a + front) + [last] && b == front + [last];
      FoldConcat(combine, seed, a, front);
      FoldSnoc(combine, seed, a + front, last);
      FoldSnoc(combine, Fold(combine, seed, a), front, last);
    }
  }

  // ----- late chunks

  /** Chunks that arrive after the response count as those before it: what a completed turn answers
      depends only on the chunks and their order. */
  lemma LateChunksCommute(combine: Combine, p: Process, t: Turn, before: seq<Message>, after: seq<Message>,
                          before': seq<Message>, after': seq<Message>, session: Maybe<string>)
    requires Started(p, t).0.Up? && Started(p, t).1.Alive?
    requires var q := Started(p, t).1;
             && (forall m | m in q.pipe :: !EndsTurn(m, q.nextId))
             && (forall m | m in before :: !EndsTurn(m, q.nextId))
             && (forall m | m in before' :: !EndsTurn(m, q.nextId))
    requires Texts(before + after) == Texts(before' + after')
    ensures var response := Result(Started(p, t).1.nextId, session);
            Send(combine, p, t.(arriving := before + [response] + after))
            == Send(combine, p, t.(arriving := before' + [response] + after'))
  {
    hide Handshake, Answer, Texts, Fold, EndsTurn;
    var q := Started(p, t).1;
    var response := Result(q.nextId, session);
    CompletedAfter(combine, q, before, response, after, t.seed, t.fate);
    CompletedAfter(combine, q, before', response, after', t.seed, t.fate);
  }

  lemma CompletedAfter(combine: Combine, q: Process, before: seq<Message>, response: Message, after: seq<Message>,
                       seed: string, fate: Fate)
    requires q.Alive? && response.Result? && response.id == q.nextId
    requires forall m | m in q.pipe || m in before :: !EndsTurn(m, q.nextId)
    ensures Answer(combine, q.nextId, q.pipe + (before + [response] + after), seed, fate)
         == (Alive(q.nextId + 1, []), Reply(Fold(combine, seed, Texts(q.pipe) + Texts(before + after)), true, ""))
  {
    hide Texts, Fold, Answer, EndsTurn;
    CompletedAnswer(combine, q.nextId, q.pipe + before, response, after, seed, fate);
    assert q.pipe + (before + [response] + after) == (q.pipe + before) + [response] + after;
    assert (q.pipe + before) + after == q.pipe + (before + after);
    TextsConcat(q.pipe, before + after);
  }

  lemma CompletedAnswer(combine: Combine, id: int, before: seq<Message>, response: Message, after: seq<Message>,
                        seed: string, fate: Fate)
    requires response.Result? && response.id == id && forall m | m in before :: !EndsTurn(m, id)
    ensures Answer(combine, id, before + [response] + after, seed, fate)
         == (Alive(id + 1, []), Reply(Fold(combine, seed, Texts(before + after)), true, ""))
  {
    hide Texts, Fold, Answer;
    var ms := before + [response] + after;
    assert ms[..|before|] == before && ms[|before| + 1..] == after;
    AnsweredAt(combine, id, ms, |before|, seed, fate);
    TextsConcat(before, after);
    FoldConcat(combine, seed, Texts(before), Texts(after));
  }

  // ----- runs

  /** A line that neither shows in a later reply nor ends a later turn. */
  predicate IsHarmless(m: Message, nextId: int) {
    (m.Notification? ==> m.chunk == "") && (m.Result? || m.Error? ==> m.id < nextId)
  }

  predicate AllHarmless(ms: seq<Message>, nextId: int) {
    forall i | 0 <= i < |ms| :: IsHarmless(ms[i], nextId)
  }

  /** Nothing that matters is left over from an earlier turn. */
  predicate IsQuiet(p: Process) {
    p.Alive? ==> AllHarmless(p.pipe, p.nextId)
  }

  /** What leaves the pipe quiet: the turn ends by a kill, or no text and no foreign response comes too
      late, nor, when the turn ends by an error response, after that response. */
  predicate LeavesQuiet(p: Process, t: Turn) {
    var (ok, q) := Started(p, t);
    if q.Dead? then true
    else if !ok.Up? then AllHarmless(q.pipe, q.nextId) && AllHarmless(t.late, q.nextId)
    else
      var ms := q.pipe + t.arriving;
      var k := EndOf(ms, q.nextId);
      t.writes && k < |ms| ==>
        AllHarmless(t.late, q.nextId + 1) && (ms[k].Error? ==> AllHarmless(ms[k + 1..], q.nextId + 1))
  }

  lemma HarmlessConcat(a: seq<Message>, b: seq<Message>, nextId: int)
    ensures AllHarmless(a + b, nextId) <==> AllHarmless(a, nextId) && AllHarmless(b, nextId)
  {
    hide IsHarmless;
    assert forall i | 0 <= i < |a| :: (a + b)[i] == a[i];
    assert forall i | 0 <= i < |b| :: (a + b)[|a| + i] == b[i];
  }

  /** A turn leaves a quiet pipe if and only if it ends in one of these ways. */
  lemma TurnLeavesQuietExactlyIf(combine: Combine, p: Process, t: Turn)
    ensures IsQuiet(Send(combine, p, t).0) <==> LeavesQuiet(p, t)
  {
    hide Texts, Fold, EndOf, Handshake, AllHarmless;
    var (ok, q) := Started(p, t);
    NothingIsHarmless(if q.Alive? then q.nextId + 1 else 0);
    if q.Alive? {
      if !ok.Up? {
        HarmlessConcat(q.pipe, t.late, q.nextId);
      } else {
        var ms := q.pipe + t.arriving;
        var k := EndOf(ms, q.nextId);
        if t.writes && k < |ms| {
          HarmlessConcat(if ms[k].Result? then [] else ms[k + 1..], t.late, q.nextId + 1);
        }
      }
    }
  }

  lemma NothingIsHarmless(nextId: int)
    ensures AllHarmless([], nextId)
  {
  }

  /** What the process says for this turn alone: what the handshake left, and what arrived. */
  function OwnMessages(p: Process, t: Turn): seq<Message> {
    var q := Started(p, t).1;
    (if p.Dead? || t.recycle then (if q.Alive? then q.pipe else []) else []) + t.arriving
  }

  /** The lines of the turn that count: those before an error response or all of them. */
  function Counted(own: seq<Message>, promptId: int): seq<Message> {
    var k := EndOf(own, promptId);
    if k < |own| && own[k].Error? then own[..k] else own
  }

  /** The fold of the turn's own chunks. */
  function OwnText(combine: Combine, p: Process, t: Turn): string {
    var q := Started(p, t).1;
    Fold(combine, t.seed, Texts(Counted(OwnMessages(p, t), if q.Alive? then q.nextId else 0)))
  }

  predicate IsSent(p: Process, t: Turn) {
    Started(p, t).0.Up? && Started(p, t).1.Alive? && t.writes
  }

  lemma {:induction false} HarmlessHasNoText(ms: seq<Message>, nextId: int)
    requires AllHarmless(ms, nextId)
    ensures Texts(ms) == [] && forall i | 0 <= i < |ms| :: !EndsTurn(ms[i], nextId)
  {
    if ms != [] {
      assert IsHarmless(ms[|ms| - 1], nextId);
      assert AllHarmless(ms[..|ms| - 1], nextId);
      HarmlessHasNoText(ms[..|ms| - 1], nextId);
    }
  }

  lemma EndOfSkips(left: seq<Message>, own: seq<Message>, promptId: int)
    requires forall i | 0 <= i < |left| :: !EndsTurn(left[i], promptId)
    ensures EndOf(left + own, promptId) == |left| + EndOf(own, promptId)
  {
    hide EndsTurn;
    var k := EndOf(own, promptId);
    var all := left + own;
    assert k < |own| ==> all[|left| + k] == own[k];
    forall i | 0 <= i < |left| + k
      ensures !EndsTurn(all[i], promptId)
    {
      assert all[i] == if i < |left| then left[i] else own[i - |left|];
    }
    EndOfIs(all, promptId, |left| + k);
  }

  /** What a turn on a process that goes on answers, however it ends: the chunks that were left in the
      pipe, and its own. */
  lemma ReplyAfterLeftover(combine: Combine, p: Process, t: Turn)
    requires p.Alive? && !t.recycle && t.writes && forall m | m in p.pipe :: !EndsTurn(m, p.nextId)
    ensures var reply := Send(combine, p, t).1;
            && reply.Reply?
            && reply.text == Fold(combine, t.seed, Texts(p.pipe) + Texts(Counted(t.arriving, p.nextId)))
            && (EndOf(t.arriving, p.nextId) < |t.arriving| ==>
                  (reply.success <==> t.arriving[EndOf(t.arriving, p.nextId)].Result?))
  {
    hide Texts, Fold, EndOf;
    var own := t.arriving;
    EndOfSkips(p.pipe, own, p.nextId);
    var k := EndOf(own, p.nextId);
    TextsConcat(p.pipe, own);
    TextsConcat(p.pipe, own[..k]);
    assert (p.pipe + own)[..|p.pipe| + k] == p.pipe + own[..k];
    assert k < |own| ==> (p.pipe + own)[|p.pipe| + k] == own[k];
  }

  /** On a quiet pipe a turn answers with its own chunks. */
  lemma QuietTurn(combine: Combine, p: Process, t: Turn)
    requires IsQuiet(p) && IsSent(p, t)
    ensures Send(combine, p, t).1.Reply? && Send(combine, p, t).1.text == OwnText(combine, p, t)
  {
    hide Handshake, Texts, Fold, EndOf, AllHarmless;
    if p.Alive? && !t.recycle {
      hide Send, Counted;
      HarmlessHasNoText(p.pipe, p.nextId);
      ReplyAfterLeftover(combine, p, t);
      assert OwnMessages(p, t) == t.arriving;
      assert [] + Texts(Counted(t.arriving, p.nextId)) == Texts(Counted(t.arriving, p.nextId));
    } else {
      assert OwnMessages(p, t) == Started(p, t).1.pipe + t.arriving;
    }
  }

  /** Every turn of the run is sent and leaves a quiet pipe. */
  ghost predicate IsQuietRun(combine: Combine, p: Process, turns: seq<Turn>)
    decreases |turns|
  {
    turns != [] ==>
      IsSent(p, turns[0]) && LeavesQuiet(p, turns[0]) && IsQuietRun(combine, Send(combine, p, turns[0]).0, turns[1..])
  }

  /** The process before turn i of a run. */
  function ProcessBefore(combine: Combine, p: Process, turns: seq<Turn>, i: nat): Process
    requires i <= |turns|
    decreases i
  {
    if i == 0 then p else ProcessBefore(combine, Send(combine, p, turns[0]).0, turns[1..], i - 1)
  }

  /** Over any run of turns that leave a quiet pipe, by completion, by a kill or by an error response with
      no chunk after it, every reply is the fold of exactly its own turn's chunks. */
  lemma {:induction false} EachReplyIsItsOwn(combine: Combine, p: Process, turns: seq<Turn>, i: nat)
    requires IsQuiet(p) && IsQuietRun(combine, p, turns) && i < |turns|
    ensures |Run(combine, p, turns)| > i
    ensures var reply := Run(combine, p, turns)[i];
            reply.Reply? && reply.text == OwnText(combine, ProcessBefore(combine, p, turns, i), turns[i])
    decreases |turns|
  {
    hide Send, LeavesQuiet, IsSent, IsQuiet, OwnText;
    QuietTurn(combine, p, turns[0]);
    TurnLeavesQuietExactlyIf(combine, p, turns[0]);
    if i > 0 {
      EachReplyIsItsOwn(combine, Send(combine, p, turns[0]).0, turns[1..], i - 1);
    }
  }

  // ----- joining chunks

  predicate EndsSentence(s: string) {
    s != "" && s[|s| - 1] in ".!?"
  }

  /** What a backend puts between two chunks: OpenCode a space between a sentence and a capital, the other
      backends, for which no character counts as a capital, nothing. */
  function Glue(isUpper: char -> bool, prev: string, chunk: string): string {
    if EndsSentence(prev) && chunk != "" && isUpper(chunk[0]) then " " else ""
  }

  function Joining(isUpper: char -> bool): Combine {
    (prev: string, chunk: string) => prev + Glue(isUpper, prev, chunk) + chunk
  }

  /** A space goes between a sentence and a capital, and nothing anywhere else. */
  lemma JoinedAtTheSeam(isUpper: char -> bool, a: string, last: char, first: char, b: string)
    ensures Joining(isUpper)(a + [last], [first] + b)
         == a + [last] + (if (last == '.' || last == '!' || last == '?') && isUpper(first) then " " else "")
            + [first] + b
    ensures Joining(isUpper)(a, "") == a && Joining(isUpper)("", b) == b
  {
    var glue := Glue(isUpper, a + [last], [first] + b);
    assert a + [last] + glue + ([first] + b) == a + [last] + glue + [first] + b;
    assert "" + "" + b == b && a + "" + "" == a;
  }

  /** Chunks extend the text before them by the same string, the first space aside. */
  lemma {:induction false} JoinedChunks(isUpper: char -> bool, seed: string, texts: seq<string>)
    requires texts != [] && forall t | t in texts :: t != ""
    ensures Fold(Joining(isUpper), seed, texts)
         == seed + Glue(isUpper, seed, texts[0]) + Fold(Joining(isUpper), "", texts)
    ensures Fold(Joining(isUpper), "", texts) != ""
  {
    hide Glue;
    var c := Joining(isUpper);
    var front, last := texts[..|texts| - 1], texts[|texts| - 1];
    assert last in texts && forall t | t in front :: t in texts;
    if front == [] {
      assert Fold(c, seed, front) == seed && Fold(c, "", front) == "";
      GlueAfter(isUpper, "", "", last);
      assert "" + "" + last == last;
    } else {
      JoinedChunks(isUpper, seed, front);
      var a, x := seed + Glue(isUpper, seed, texts[0]), Fold(c, "", front);
      GlueAfter(isUpper, a, x, last);
      Regroup(a, x, Glue(isUpper, x, last), last);
    }
  }

  lemma Regroup(a: string, x: string, glue: string, last: string)
    ensures (a + x) + glue + last == a + (x + glue + last)
  {
  }

  lemma GlueAfter(isUpper: char -> bool, a: string, x: string, chunk: string)
    ensures x != "" ==> Glue(isUpper, a + x, chunk) == Glue(isUpper, x, chunk)
    ensures Glue(isUpper, "", chunk) == ""
  {
  }

  /** The stream events and the final reply of a turn: every text is a prefix of the next. */
  lemma {:induction false} PartialsGrow(isUpper: char -> bool, seed: string, texts: seq<string>)
    ensures var shown := Partials(Joining(isUpper), seed, texts);
            && |shown| == |texts|
            && (forall i | 0 <= i < |shown| :: seed <= shown[i] <= Fold(Joining(isUpper), seed, texts))
            && (forall i, j | 0 <= i < j < |shown| :: shown[i] <= shown[j])
            && seed <= Fold(Joining(isUpper), seed, texts)
  {
    if texts != [] {
      PartialsGrow(isUpper, seed, texts[..|texts| - 1]);
    }
  }

  /** Every stream event of a turn shows a prefix of its reply. */
  lemma EventsArePrefixesOfTheReply(isUpper: char -> bool, p: Process, t: Turn)
    requires IsSent(p, t)
    ensures var shown := ShownBySend(Joining(isUpper), p, t);
            && (forall i, j | 0 <= i < j < |shown| :: shown[i] <= shown[j])
            && (forall i | 0 <= i < |shown| :: shown[i] <= Send(Joining(isUpper), p, t).1.text)
  {
    hide Texts, Fold, Partials, EndOf, Handshake, Joining;
    var c, q := Joining(isUpper), Started(p, t).1;
    var ms := q.pipe + t.arriving;
    var k := EndOf(ms, q.nextId);
    assert ms[..k] + ms[k..] == ms && ms[..|ms|] == ms;
    TextsConcat(ms[..k], ms[k..]);
    FoldConcat(c, t.seed, Texts(ms[..k]), Texts(ms[k..]));
    PartialsGrow(isUpper, t.seed, Texts(ms[..k]));
    PartialsGrow(isUpper, Fold(c, t.seed, Texts(ms[..k])), Texts(ms[k..]));
  }

  lemma {:induction false} TextsAreNotEmpty(ms: seq<Message>)
    ensures forall t | t in Texts(ms) :: t != ""
  {
    if ms != [] {
      TextsAreNotEmpty(ms[..|ms| - 1]);
    }
  }

  lemma LeftoverShows(isUpper: char -> bool, seed: string, left: seq<string>, own: seq<string>)
    requires (forall t | t in left :: t != "") && (forall t | t in own :: t != "") && !EndsSentence(seed)
    ensures var c := Joining(isUpper);
            Fold(c, Fold(c, seed, left), own) == Fold(c, seed, own) <==> left == []
  {
    hide Fold, EndsSentence;
    var c := Joining(isUpper);
    FoldNone(c, seed);
    if left != [] {
      JoinedChunks(isUpper, seed, left);
      var more := Fold(c, seed, left);
      assert |more| > |seed|;
      if own == [] {
        FoldNone(c, more);
      } else {
        JoinedChunks(isUpper, seed, own);
        JoinedChunks(isUpper, more, own);
        assert Glue(isUpper, seed, own[0]) == "";
      }
    }
  }

  /** An exit by error, or a chunk past the quiet window, leaves its chunks in the pipe. The next reply,
      however its turn ends, is that turn's own exactly when no chunk was left there, for backends that
      join chunks as they are and for those that put spaces between sentences; a seed ends no sentence. */
  lemma LeftoverSurfacesInTheNextReply(isUpper: char -> bool, p: Process, t: Turn)
    requires p.Alive? && !t.recycle && t.writes
    requires (forall m | m in p.pipe :: !EndsTurn(m, p.nextId)) && !EndsSentence(t.seed)
    ensures var reply := Send(Joining(isUpper), p, t).1;
            reply.Reply? && (reply.text == OwnText(Joining(isUpper), p, t) <==> Texts(p.pipe) == [])
  {
    hide Texts, Fold, EndOf, EndsTurn, Send, Joining, EndsSentence, Counted;
    var c := Joining(isUpper);
    var left, mine := Texts(p.pipe), Texts(Counted(t.arriving, p.nextId));
    ReplyAfterLeftover(c, p, t);
    assert OwnMessages(p, t) == t.arriving;
    FoldConcat(c, t.seed, left, mine);
    TextsAreNotEmpty(p.pipe);
    TextsAreNotEmpty(Counted(t.arriving, p.nextId));
    LeftoverShows(isUpper, t.seed, left, mine);
  }

  lemma FoldNone(combine: Combine, seed: string)
    ensures Fold(combine, seed, []) == seed
  {
  }

  function Verbatim(a: string, b: string): string {
    a + b
  }

  /** The error exit does leave a chunk behind, and the next reply begins with it. */
  lemma ErrorExitLeaksAChunk()
    ensures var first := Turn(false, [], true, "", [Error(3, "e"), Notification("late")], Eof, []);
            var second := Turn(false, [], true, "", [Notification("b"), Result(4, None)], Eof, []);
            var (p, r) := Send(Verbatim, Alive(3, []), first);
            p == Alive(4, [Notification("late")]) && Send(Verbatim, p, second).1 == Reply("late" + "b", true, "")
  {
    hide Answer, Texts, Fold;
    var e, l, b, r := Error(3, "e"), Notification("late"), Notification("b"), Result(4, None);
    var first, second := [e, l], [l, b] + [r] + [];
    assert [] + [e, l] == first && first[1..] == [l] && [l] + [b, r] == second;
    AnsweredAt(Verbatim, 3, first, 0, "", Eof);
    CompletedAnswer(Verbatim, 4, [l, b], r, [], "", Eof);
    TwoChunks(l, b);
  }

  lemma TwoChunks(l: Message, b: Message)
    requires l == Notification("late") && b == Notification("b")
    ensures Fold(Verbatim, "", Texts([l, b] + [])) == "late" + "b"
  {
    hide Texts, Fold;
    assert [] + [l] == [l] && [l] + [b] == [l, b] && [l, b] + [] == [l, b];
    assert Texts([]) == [] by { NothingRead(Verbatim, "", []); }
    TextsSnoc([], l);
    TextsSnoc([l], b);
    var late: string := "late";
    assert [] + [late] == [late] && "" + late == late;
    FoldNone(Verbatim, "");
    FoldSnoc(Verbatim, "", [], late);
    FoldSnoc(Verbatim, "", [late], "b");
  }

  /** A response to an earlier request of the same process never ends a turn. */
  lemma OldResponsesEndNothing(combine: Combine, p: Process, t: Turn, m: Message)
    requires p.Alive? && !t.recycle && EndsTurn(m, p.nextId)
    ensures var q := Send(combine, p, t).0;
            q.Alive? ==> q.nextId == p.nextId + 1 && !EndsTurn(m, q.nextId)
  {
    hide Texts, Fold, EndOf;
  }
}

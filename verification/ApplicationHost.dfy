/** The lifecycle of the application host (src/kai/application_host.py, lines 160 to 223 and 299 to 355),
    with components and adapters that may fail. A start and an attachment wait for others, so each is two
    calls: other calls can come between its beginning and its end. */
module ApplicationHost {

  datatype HostState = New | Starting | Ready | Failed | Stopped

  datatype Component = Pool | Store | Execution | Commands

  /** What happens to the outside: components are created, adapters are asked to start, both are stopped. */
  datatype Effect = Create(c: Component) | StopCore(c: Component) | StartAdapter(a: int) | StopAdapter(a: int)

  /** The steps of `start` at which it can raise. */
  datatype StartStep =
    | ConstructPool | ConstructServices | StartPool | OpenStore | ActivateAuthority
    | OpenExecution | ConstructCommands | StartCommands | BundleServices | Nowhere

  /** A call on the host, with the failures it meets: where start raises, whether an adapter fails to
      start, and whose stop raises. What was begun ends once; an attachment is named by its place among
      those that wait. */
  datatype Call =
    | BeginStart
    | EndStart(failsAt: StartStep, raising: set<Component>)
    | BeginAttach(name: string, adapter: int)
    | EndAttach(place: nat, fails: bool)
    | CallStop(raisingAdapters: set<int>, raising: set<Component>)

  type Adapters = seq<(string, int)>

  /** `starting` and `waiting` say which calls have begun and not yet ended. What start creates is logged
      when it ends. */
  datatype Host = Host(state: HostState, starting: bool, services: bool, waiting: Adapters, adapters: Adapters,
                       log: seq<Effect>)

  const FRESH: Host := Host(New, false, false, [], [], [])

  // ----- the calls, as functions

  /** Whether start has created the component when it raises at the step. */
  predicate CreatedBefore(c: Component, step: StartStep) {
    match c
    case Pool => step != ConstructPool
    case Store =>
      step.ActivateAuthority? || step.OpenExecution? || step.ConstructCommands? || step.StartCommands?
      || step.BundleServices? || step.Nowhere?
    case Execution => step.ConstructCommands? || step.StartCommands? || step.BundleServices? || step.Nowhere?
    case Commands => step.StartCommands? || step.BundleServices? || step.Nowhere?
  }

  function Creations(step: StartStep): seq<Effect> {
    (if CreatedBefore(Pool, step) then [Create(Pool)] else [])
    + (if CreatedBefore(Store, step) then [Create(Store)] else [])
    + (if CreatedBefore(Execution, step) then [Create(Execution)] else [])
    + (if CreatedBefore(Commands, step) then [Create(Commands)] else [])
  }

  /** One stop of the cleanup of a failed start; after a stop that raised there is no other. */
  function CleanupStep(done: (seq<Effect>, bool), c: Component, step: StartStep,
      raising: set<Component>): (seq<Effect>, bool) {
    if done.1 || !CreatedBefore(c, step) then done else (done.0 + [StopCore(c)], c in raising)
  }

  /** The first n stops of the cleanup. */
  function CleanupSteps(step: StartStep, raising: set<Component>, n: nat): (seq<Effect>, bool)
    requires n <= 4
  {
    if n == 0 then ([], false)
    else CleanupStep(CleanupSteps(step, raising, n - 1), [Commands, Store, Execution, Pool][n - 1], step, raising)
  }

  function Cleanup(step: StartStep, raising: set<Component>): seq<Effect> {
    CleanupSteps(step, raising, 4).0
  }

  lemma CleanupStepIs(done: (seq<Effect>, bool), c: Component, step: StartStep, raising: set<Component>)
    requires !done.1
    ensures CleanupStep(done, c, step, raising)
         == if CreatedBefore(c, step) then (done.0 + [StopCore(c)], c in raising) else done
  {
  }

  lemma CleanupEnds(step: StartStep, raising: set<Component>, n: nat)
    requires n <= 4 && CleanupSteps(step, raising, n).1
    ensures Cleanup(step, raising) == CleanupSteps(step, raising, n).0
    decreases 4 - n
  {
    hide CreatedBefore;
    if n < 4 {
      assert CleanupSteps(step, raising, n + 1) == CleanupSteps(step, raising, n);
      CleanupEnds(step, raising, n + 1);
    }
  }

  /** The place of a step in the order in which start takes them. */
  function Place(step: StartStep): nat {
    match step
    case ConstructPool => 0
    case ConstructServices => 1
    case StartPool => 2
    case OpenStore => 3
    case ActivateAuthority => 4
    case OpenExecution => 5
    case ConstructCommands => 6
    case StartCommands => 7
    case BundleServices => 8
    case Nowhere => 9
  }

  function StepThatCreates(c: Component): StartStep {
    match c
    case Pool => ConstructPool
    case Store => OpenStore
    case Execution => OpenExecution
    case Commands => ConstructCommands
  }

  /** A component exists exactly if the step that creates it comes before the one that raises. */
  lemma CreatedExactly(c: Component, step: StartStep)
    ensures CreatedBefore(c, step) <==> Place(StepThatCreates(c)) < Place(step)
  {
    match c
    case Pool =>
    case Store =>
    case Execution =>
    case Commands =>
  }

  const CORE_STOPS: seq<Effect> := [StopCore(Commands), StopCore(Store), StopCore(Execution), StopCore(Pool)]

  function StopAdapters(adapters: Adapters): seq<Effect> {
    if adapters == [] then []
    else [StopAdapter(adapters[|adapters| - 1].1)] + StopAdapters(adapters[..|adapters| - 1])
  }

  predicate IsAttached(adapters: Adapters, name: string) {
    exists i :: 0 <= i < |adapters| && adapters[i].0 == name
  }

  function Replace(adapters: Adapters, name: string, adapter: int): Adapters {
    if adapters == [] then [] else
      var front, last := adapters[..|adapters| - 1], adapters[|adapters| - 1];
      if last.0 == name then front + [(name, adapter)] else Replace(front, name, adapter) + [last]
  }

  /** The assignment to a dictionary. */
  function Put(adapters: Adapters, name: string, adapter: int): Adapters {
    if IsAttached(adapters, name) then Replace(adapters, name, adapter) else adapters + [(name, adapter)]
  }

  /** A new name goes to the end and a name that is attached keeps its place; all others stay. */
  lemma PutExactly(adapters: Adapters, name: string, adapter: int)
    ensures if IsAttached(adapters, name)
            then exists i :: 0 <= i < |adapters| && adapters[i].0 == name
                             && Put(adapters, name, adapter) == adapters[i := (name, adapter)]
            else Put(adapters, name, adapter) == adapters + [(name, adapter)]
  {
    if IsAttached(adapters, name) {
      var i := ReplacedAt(adapters, name, adapter);
    }
  }

  lemma PutHolds(adapters: Adapters, name: string, adapter: int)
    ensures (name, adapter) in Put(adapters, name, adapter)
  {
    if IsAttached(adapters, name) {
      var i := ReplacedAt(adapters, name, adapter);
      assert adapters[i := (name, adapter)][i] == (name, adapter);
    }
  }

  lemma {:induction false} ReplacedAt(adapters: Adapters, name: string, adapter: int) returns (i: nat)
    requires IsAttached(adapters, name)
    ensures i < |adapters| && adapters[i].0 == name
    ensures Replace(adapters, name, adapter) == adapters[i := (name, adapter)]
  {
    i := |adapters| - 1;
    if adapters[i].0 != name {
      AttachedInFront(adapters, name);
      i := ReplacedAt(adapters[..i], name, adapter);
    }
  }

  function Without(adapters: Adapters, i: nat): Adapters
    requires i < |adapters|
  {
    adapters[..i] + adapters[i + 1..]
  }

  function Apply(h: Host, call: Call): Host {
    match call
    case BeginStart => if h.state != New then h else h.(state := Starting, starting := true)
    case EndStart(failsAt, raising) =>
      if !h.starting then h
      else if failsAt == Nowhere then
        h.(state := Ready, starting := false, services := true, log := h.log + Creations(Nowhere))
      else h.(state := Failed, starting := false, log := h.log + Creations(failsAt) + Cleanup(failsAt, raising))
    case BeginAttach(name, adapter) =>
      if h.state != Ready || name == "" || IsAttached(h.adapters, name) then h
      else h.(waiting := h.waiting + [(name, adapter)], log := h.log + [StartAdapter(adapter)])
    case EndAttach(place, fails) =>
      if place >= |h.waiting| then h else
        var (name, adapter) := h.waiting[place];
        var rest := Without(h.waiting, place);
        if fails then h.(state := Failed, waiting := rest, log := h.log + [StopAdapter(adapter)])
        else h.(waiting := rest, adapters := Put(h.adapters, name, adapter))
    case CallStop(_, _) =>
      if h.state == New || h.state == Stopped || !h.services then h.(state := Stopped)
      else h.(state := Stopped, services := false, adapters := [], log := h.log + StopAdapters(h.adapters) + CORE_STOPS)
  }

  function Run(h: Host, calls: seq<Call>): Host {
    if calls == [] then h else Apply(Run(h, calls[..|calls| - 1]), calls[|calls| - 1])
  }

  /** How many adapters raise when they are stopped. */
  function CountRaising(adapters: Adapters, raising: set<int>): nat {
    if adapters == [] then 0
    else (if adapters[|adapters| - 1].1 in raising then 1 else 0) + CountRaising(adapters[..|adapters| - 1], raising)
  }

  /** How many of the first n core stops raise. */
  function CountRaisingCore(raising: set<Component>, n: nat): nat
    requires n <= 4
  {
    if n == 0 then 0 else CountRaisingCore(raising, n - 1) + (if CORE_STOPS[n - 1].c in raising then 1 else 0)
  }

  // ----- the host as the source writes it

  class KaiApplicationHost {
    var state: HostState
    var starting: bool
    var services: bool
    var waiting: Adapters
    var adapters: Adapters
    var log: seq<Effect>

    ghost function Now(): Host
      reads this
    {
      Host(state, starting, services, waiting, adapters, log)
    }

    constructor ()
      ensures Now() == FRESH
    {
      state, starting, services, waiting, adapters, log := New, false, false, [], [], [];
    }

    /** `start` up to where it waits. */
    method StartBegins() returns (begun: bool)
      modifies this
      ensures Now() == Apply(old(Now()), BeginStart)
      ensures begun <==> old(state) == New
      ensures state == (if begun then Starting else old(state)) && log == old(log)
    {
      if state != New {
        return false;
      }
      state, starting := Starting, true;
      begun := true;
    }

    method StartEnds(failsAt: StartStep, raising: set<Component>) returns (started: bool)
      requires starting
      modifies this
      ensures Now() == Apply(old(Now()), EndStart(failsAt, raising))
      ensures started <==> failsAt == Nowhere
      ensures state == (if started then Ready else HostState.Failed) && services == (started || old(services))
      ensures adapters == old(adapters) && waiting == old(waiting)
    {
      hide CreatedBefore, Creations;
      starting := false;
      log := log + Creations(failsAt);
      if failsAt == Nowhere {
        services := true;
        state := Ready;
        return true;
      }
      state := Failed;
      CleanUp(failsAt, raising);
      started := false;
    }

    /** The exception handler of `start`. */
    method CleanUp(failsAt: StartStep, raising: set<Component>)
      modifies this`log
      ensures log == old(log) + Cleanup(failsAt, raising)
    {
      hide CleanupStep;
      ghost var before, done := log, ([], false);
      var order := [Commands, Store, Execution, Pool];
      for i := 0 to 4
        invariant log == before + done.0 && !done.1 && done == CleanupSteps(failsAt, raising, i)
      {
        CleanupStepIs(done, order[i], failsAt, raising);
        if CreatedBefore(order[i], failsAt) {
          log := log + [StopCore(order[i])];
          if order[i] in raising {
            CleanupEnds(failsAt, raising, i + 1);
            return;
          }
        }
        done := CleanupStep(done, order[i], failsAt, raising);
      }
    }

    /** `attach_adapter` up to where it waits for the adapter to start. */
    method AttachBegins(name: string, adapter: int) returns (begun: bool)
      modifies this
      ensures Now() == Apply(old(Now()), BeginAttach(name, adapter))
      ensures begun <==> old(state) == Ready && name != "" && forall i | 0 <= i < |adapters| :: adapters[i].0 != name
      ensures state == old(state) && adapters == old(adapters)
      ensures log == if begun then old(log) + [StartAdapter(adapter)] else old(log)
      ensures waiting == if begun then old(waiting) + [(name, adapter)] else old(waiting)
    {
      if state != Ready || name == "" || IsAttached(adapters, name) {
        return false;
      }
      log := log + [StartAdapter(adapter)];
      waiting := waiting + [(name, adapter)];
      begun := true;
    }

    method AttachEnds(place: nat, fails: bool)
      requires place < |waiting|
      modifies this
      ensures Now() == Apply(old(Now()), EndAttach(place, fails))
      ensures waiting == old(waiting)[..place] + old(waiting)[place + 1..]
      ensures fails ==> state == Failed && adapters == old(adapters)
      ensures fails ==> log == old(log) + [StopAdapter(old(waiting)[place].1)]
      ensures !fails ==> state == old(state) && log == old(log) && old(waiting)[place] in adapters
    {
      var (name, adapter) := waiting[place];
      waiting := Without(waiting, place);
      if fails {
        state := Failed;
        log := log + [StopAdapter(adapter)];
      } else {
        adapters := Put(adapters, name, adapter);
        PutHolds(old(adapters), name, adapter);
      }
    }

    /** A stop that raises is counted and does not keep the others from being stopped. */
    method Stop(raisingAdapters: set<int>, raising: set<Component>) returns (errors: nat)
      modifies this
      ensures Now() == Apply(old(Now()), CallStop(raisingAdapters, raising))
      ensures errors == if old(state) == New || old(state) == Stopped || !old(services) then 0
                        else CountRaising(old(adapters), raisingAdapters) + CountRaisingCore(raising, 4)
      ensures state == Stopped && waiting == old(waiting)
      ensures old(state) != New && old(state) != Stopped ==> !services
    {
      hide StopAdapters, CountRaising, CountRaisingCore;
      if state == New || state == Stopped || !services {
        state := Stopped;
        return 0;
      }
      errors := StopAttached(raisingAdapters);
      adapters := [];
      var more := StopServices(raising);
      errors := errors + more;
      services := false;
      state := Stopped;
    }

    /** The loop of `stop` over the adapters, the last one first. */
    method StopAttached(raising: set<int>) returns (errors: nat)
      modifies this`log
      ensures log == old(log) + StopAdapters(adapters) && errors == CountRaising(adapters, raising)
    {
      errors := 0;
      ghost var before := log;
      assert adapters[..|adapters|] == adapters;
      for i := |adapters| downto 0
        invariant log + StopAdapters(adapters[..i]) == before + StopAdapters(adapters)
        invariant errors + CountRaising(adapters[..i], raising) == CountRaising(adapters, raising)
      {
        assert adapters[..i + 1][..i] == adapters[..i];
        log := log + [StopAdapter(adapters[i].1)];
        if adapters[i].1 in raising {
          errors := errors + 1;
        }
      }
    }

    /** The loop of `stop` over the services. */
    method StopServices(raising: set<Component>) returns (errors: nat)
      modifies this`log
      ensures log == old(log) + CORE_STOPS && errors == CountRaisingCore(raising, 4)
    {
      errors := 0;
      ghost var before := log;
      var order := [Commands, Store, Execution, Pool];
      for i := 0 to |order|
        invariant log == before + CORE_STOPS[..i] && errors == CountRaisingCore(raising, i)
      {
        log := log + [StopCore(order[i])];
        if order[i] in raising {
          errors := errors + 1;
        }
      }
    }
  }

  // ----- everything started is stopped exactly once

  function Count(log: seq<Effect>, e: Effect): nat {
    if log == [] then 0 else Count(log[..|log| - 1], e) + (if log[|log| - 1] == e then 1 else 0)
  }

  lemma CountSnoc(log: seq<Effect>, last: Effect, e: Effect)
    ensures Count(log + [last], e) == Count(log, e) + (if last == e then 1 else 0)
  {
    assert (log + [last])[..|log|] == log;
  }

  lemma {:induction false} CountConcat(a: seq<Effect>, b: seq<Effect>, e: Effect)
    ensures Count(a + b, e) == Count(a, e) + Count(b, e)
  {
    if b == [] {
      assert a + b == a;
    } else {
      var front, last := b[..|b| - 1], b[|b| - 1];
      assert a + b == (a + front) + [last] && b == front + [last];
      CountConcat(a, front, e);
      CountSnoc(a + front, last, e);
    }
  }

  function TimesAttached(adapters: Adapters, a: int): nat {
    if adapters == [] then 0
    else TimesAttached(adapters[..|adapters| - 1], a) + (if adapters[|adapters| - 1].1 == a then 1 else 0)
  }

  /** How often an adapter was asked to start and is neither stopped, nor waiting, nor attached to a host
      that a stop would take down. */
  function AdapterDeficit(h: Host, a: int): int {
    Count(h.log, StartAdapter(a)) - Count(h.log, StopAdapter(a)) - TimesAttached(h.waiting, a)
    - (if h.services then TimesAttached(h.adapters, a) else 0)
  }

  function CoreDeficit(h: Host, c: Component): int {
    Count(h.log, Create(c)) - Count(h.log, StopCore(c)) - (if h.services then 1 else 0)
  }

  /** What holds in every state: components exist only from the end of the one start on, and adapters are
      attached only after it. */
  ghost predicate Sound(h: Host) {
    && (h.state == New || h.starting ==> h.log == [] && !h.services && h.adapters == [] && h.waiting == [])
    && (h.state == New ==> !h.starting) && (h.state == Ready ==> h.services) && (h.state == Stopped ==> !h.services)
    && (h.state == Ready ==> !h.starting)
    && (forall c :: Count(h.log, Create(c)) <= 1)
  }

  /** What is running is what was started and not yet stopped. */
  ghost predicate Balanced(h: Host) {
    (forall a :: AdapterDeficit(h, a) == 0) && (forall c :: CoreDeficit(h, c) == 0)
  }

  lemma OptionalCount(log: seq<Effect>, created: bool, c: Component, e: Effect)
    ensures Count(log + (if created then [Create(c)] else []), e) == Count(log, e)
        + (if created && e == Create(c) then 1 else 0)
  {
    CountSnoc(log, Create(c), e);
    assert log + [] == log;
  }

  lemma CreationCount(step: StartStep, e: Effect)
    ensures Count(Creations(step), e) == if e.Create? && CreatedBefore(e.c, step) then 1 else 0
  {
    hide CreatedBefore, Count;
    var pool := if CreatedBefore(Pool, step) then [Create(Pool)] else [];
    var store := pool + (if CreatedBefore(Store, step) then [Create(Store)] else []);
    var execution := store + (if CreatedBefore(Execution, step) then [Create(Execution)] else []);
    NoEffects(e);
    OptionalCount([], CreatedBefore(Pool, step), Pool, e);
    assert [] + pool == pool;
    OptionalCount(pool, CreatedBefore(Store, step), Store, e);
    OptionalCount(store, CreatedBefore(Execution, step), Execution, e);
    OptionalCount(execution, CreatedBefore(Commands, step), Commands, e);
    if e.Create? {
      assert e.c == Pool || e.c == Store || e.c == Execution || e.c == Commands;
    }
    assert Creations(step) == execution + (if CreatedBefore(Commands, step) then [Create(Commands)] else []);
  }

  lemma NoEffects(e: Effect)
    ensures Count([], e) == 0
  {
  }

  lemma CoreStopCount(e: Effect)
    ensures Count(CORE_STOPS, e) == if e.StopCore? then 1 else 0
  {
    if e.StopCore? {
      assert e.c == Commands || e.c == Store || e.c == Execution || e.c == Pool;
    }
    hide Count;
    assert CORE_STOPS == [StopCore(Commands)] + [StopCore(Store)] + [StopCore(Execution)] + [StopCore(Pool)];
    CountSnoc([StopCore(Commands)], StopCore(Store), e);
    CountSnoc([StopCore(Commands)] + [StopCore(Store)], StopCore(Execution), e);
    CountSnoc([StopCore(Commands)] + [StopCore(Store)] + [StopCore(Execution)], StopCore(Pool), e);
  }

  lemma CleanupStepCount(done: (seq<Effect>, bool), c: Component, step: StartStep, raising: set<Component>, e: Effect)
    ensures Count(CleanupStep(done, c, step, raising).0, e)
         == Count(done.0, e) + (if !done.1 && CreatedBefore(c, step) && e == StopCore(c) then 1 else 0)
  {
    hide CreatedBefore;
    CountSnoc(done.0, StopCore(c), e);
  }

  /** A component that the cleanup of a failed start reaches: none before it was created and raises. */
  predicate IsReached(c: Component, step: StartStep, raising: set<Component>) {
    match c
    case Commands => true
    case Store => !(CreatedBefore(Commands, step) && Commands in raising)
    case Execution => IsReachedStore(step, raising) && !(CreatedBefore(Store, step) && Store in raising)
    case Pool => IsReachedStore(step, raising) && !(CreatedBefore(Store, step) && Store in raising)
                 && !(CreatedBefore(Execution, step) && Execution in raising)
  }

  predicate IsReachedStore(step: StartStep, raising: set<Component>) {
    !(CreatedBefore(Commands, step) && Commands in raising)
  }

  lemma CleanupCount(step: StartStep, raising: set<Component>, e: Effect)
    ensures Count(Cleanup(step, raising), e)
         == if e.StopCore? && CreatedBefore(e.c, step) && IsReached(e.c, step, raising) then 1 else 0
  {
    hide CreatedBefore, Count;
    var commands := CleanupStep(([], false), Commands, step, raising);
    var store := CleanupStep(commands, Store, step, raising);
    var execution := CleanupStep(store, Execution, step, raising);
    NoEffects(e);
    CleanupStepCount(([], false), Commands, step, raising, e);
    CleanupStepCount(commands, Store, step, raising, e);
    CleanupStepCount(store, Execution, step, raising, e);
    CleanupStepCount(execution, Pool, step, raising, e);
    assert CleanupSteps(step, raising, 1) == commands && CleanupSteps(step, raising, 2) == store;
    assert CleanupSteps(step, raising, 3) == execution;
  }

  function StopIfReached(c: Component, step: StartStep, raising: set<Component>): seq<Effect> {
    if CreatedBefore(c, step) && IsReached(c, step, raising) then [StopCore(c)] else []
  }

  /** The cleanup stops the commands before the store, the store before the execution and the execution
      before the pool, as far as they were created and up to the first stop that raises. */
  lemma CleanupStopsInOrder(step: StartStep, raising: set<Component>)
    ensures Cleanup(step, raising) == StopIfReached(Commands, step, raising) + StopIfReached(Store, step, raising)
                                      + StopIfReached(Execution, step, raising) + StopIfReached(Pool, step, raising)
  {
    hide CreatedBefore, CleanupSteps, CleanupStep;
    FourSteps(step, raising);
    var commands := CleanupStep(([], false), Commands, step, raising);
    var store := CleanupStep(commands, Store, step, raising);
    var execution := CleanupStep(store, Execution, step, raising);
    StopStep(([], false), Commands, step, raising);
    StopStep(commands, Store, step, raising);
    StopStep(store, Execution, step, raising);
    StopStep(execution, Pool, step, raising);
    assert commands.0 == StopIfReached(Commands, step, raising);
    assert store.0 == commands.0 + StopIfReached(Store, step, raising);
    assert execution.0 == store.0 + StopIfReached(Execution, step, raising);
  }

  lemma StopStep(done: (seq<Effect>, bool), c: Component, step: StartStep, raising: set<Component>)
    ensures CleanupStep(done, c, step, raising)
         == (done.0 + (if CreatedBefore(c, step) && !done.1 then [StopCore(c)] else []),
             done.1 || (CreatedBefore(c, step) && c in raising))
  {
    hide CreatedBefore;
    assert done.0 + [] == done.0;
  }

  lemma FourSteps(step: StartStep, raising: set<Component>)
    ensures CleanupSteps(step, raising, 4)
         == CleanupStep(
              CleanupStep(
                CleanupStep(CleanupStep(([], false), Commands, step, raising), Store, step, raising),
                Execution, step, raising),
              Pool, step, raising)
  {
    hide CleanupStep;
    var order := [Commands, Store, Execution, Pool];
    assert CleanupSteps(step, raising, 1) == CleanupStep(CleanupSteps(step, raising, 0), order[0], step, raising);
    assert CleanupSteps(step, raising, 2) == CleanupStep(CleanupSteps(step, raising, 1), order[1], step, raising);
    assert CleanupSteps(step, raising, 3) == CleanupStep(CleanupSteps(step, raising, 2), order[2], step, raising);
    assert CleanupSteps(step, raising, 4) == CleanupStep(CleanupSteps(step, raising, 3), order[3], step, raising);
  }

  /** No stop but the last of the cleanup raises. */
  ghost predicate CleansUp(step: StartStep, raising: set<Component>) {
    forall c | CreatedBefore(c, step) && c in raising :: c == Pool
  }

  /** A failed start stops exactly what it had created if and only if no stop but the last one raises. */
  lemma CleanupIsCompleteExactlyIf(step: StartStep, raising: set<Component>)
    ensures CleansUp(step, raising)
            <==> forall c :: Count(Cleanup(step, raising), StopCore(c)) == Count(Creations(step), Create(c))
  {
    hide Count, Cleanup, Creations;
    forall c: Component
      ensures Count(Cleanup(step, raising), StopCore(c))
           == if CreatedBefore(c, step) && IsReached(c, step, raising) then 1 else 0
      ensures Count(Creations(step), Create(c)) == if CreatedBefore(c, step) then 1 else 0
    {
      CleanupCount(step, raising, StopCore(c));
      CreationCount(step, Create(c));
    }
    if !CleansUp(step, raising) {
      var c :| CreatedBefore(c, step) && c in raising && c != Pool;
      assert !IsReached(Pool, step, raising) && CreatedBefore(Pool, step);
    }
  }

  lemma {:induction false} AdapterStopCount(adapters: Adapters, e: Effect)
    ensures Count(StopAdapters(adapters), e) == if e.StopAdapter? then TimesAttached(adapters, e.a) else 0
  {
    if adapters == [] {
    } else {
      var front, last := adapters[..|adapters| - 1], adapters[|adapters| - 1];
      AdapterStopCount(front, e);
      CountConcat([StopAdapter(last.1)], StopAdapters(front), e);
    }
  }

  // ----- what leaks

  /** A start that fails and whose cleanup is cut short, or an attachment that ends when the host has been
      stopped or when its name has been attached in the meantime. */
  ghost predicate Leaks(h: Host, call: Call) {
    match call
    case EndStart(failsAt, raising) => h.starting && failsAt != Nowhere && !CleansUp(failsAt, raising)
    case EndAttach(place, fails) =>
      place < |h.waiting| && !fails && (!h.services || IsAttached(h.adapters, h.waiting[place].0))
    case _ => false
  }

  /** No call of the run leaks. */
  ghost predicate NothingLeaks(calls: seq<Call>) {
    calls != [] ==>
      NothingLeaks(calls[..|calls| - 1]) && !Leaks(Run(FRESH, calls[..|calls| - 1]), calls[|calls| - 1])
  }

  /** No deficit shrinks. */
  ghost predicate DeficitsGrow(h: Host, h': Host) {
    (forall a :: AdapterDeficit(h, a) <= AdapterDeficit(h', a)) && (forall c :: CoreDeficit(h, c) <= CoreDeficit(h', c))
  }

  ghost predicate SameDeficits(h: Host, h': Host) {
    (forall a :: AdapterDeficit(h, a) == AdapterDeficit(h', a)) && (forall c :: CoreDeficit(h, c) == CoreDeficit(h', c))
  }

  lemma NotAttached(a: int)
    ensures TimesAttached([], a) == 0
  {
  }

  lemma AllCreated()
    ensures forall c :: CreatedBefore(c, Nowhere)
  {
  }

  lemma {:induction false} AttachedConcat(x: Adapters, y: Adapters, a: int)
    ensures TimesAttached(x + y, a) == TimesAttached(x, a) + TimesAttached(y, a)
  {
    if y == [] {
      assert x + y == x;
    } else {
      assert (x + y)[..|x + y| - 1] == x + y[..|y| - 1];
      AttachedConcat(x, y[..|y| - 1], a);
    }
  }

  lemma AttachedOne(name: string, adapter: int, a: int)
    ensures TimesAttached([(name, adapter)], a) == if a == adapter then 1 else 0
  {
  }

  lemma WithoutCount(adapters: Adapters, i: nat, a: int)
    requires i < |adapters|
    ensures TimesAttached(Without(adapters, i), a)
         == TimesAttached(adapters, a) - (if a == adapters[i].1 then 1 else 0)
  {
    hide TimesAttached;
    var front, one, back := adapters[..i], [adapters[i]], adapters[i + 1..];
    assert adapters == front + one + back;
    AttachedConcat(front + one, back, a);
    AttachedConcat(front, one, a);
    AttachedConcat(front, back, a);
    AttachedOne(adapters[i].0, adapters[i].1, a);
  }

  lemma {:induction false} UpdateCount(adapters: Adapters, i: nat, x: (string, int), a: int)
    requires i < |adapters|
    ensures TimesAttached(adapters[i := x], a)
         == TimesAttached(adapters, a) + (if a == x.1 then 1 else 0) - (if a == adapters[i].1 then 1 else 0)
  {
    var n := |adapters| - 1;
    if i == n {
      assert adapters[i := x][..n] == adapters[..n];
    } else {
      assert adapters[i := x][..n] == adapters[..n][i := x];
      UpdateCount(adapters[..n], i, x, a);
    }
  }

  /** A new name adds its adapter; a name that is attached replaces the adapter that it had. */
  lemma PutCount(adapters: Adapters, name: string, adapter: int) returns (gone: int)
    ensures forall a :: TimesAttached(Put(adapters, name, adapter), a)
                        == TimesAttached(adapters, a) + (if a == adapter then 1 else 0)
                           - (if IsAttached(adapters, name) && a == gone then 1 else 0)
  {
    gone := 0;
    if IsAttached(adapters, name) {
      var i := ReplacedAt(adapters, name, adapter);
      gone := adapters[i].1;
      forall a
        ensures TimesAttached(adapters[i := (name, adapter)], a)
             == TimesAttached(adapters, a) + (if a == adapter then 1 else 0) - (if a == gone then 1 else 0)
      {
        UpdateCount(adapters, i, (name, adapter), a);
      }
    } else {
      assert (adapters + [(name, adapter)])[..|adapters|] == adapters;
    }
  }

  lemma AttachedInFront(adapters: Adapters, name: string)
    requires adapters != [] && adapters[|adapters| - 1].0 != name
    ensures IsAttached(adapters, name) <==> IsAttached(adapters[..|adapters| - 1], name)
  {
    var front := adapters[..|adapters| - 1];
    if i :| 0 <= i < |adapters| && adapters[i].0 == name {
      assert front[i].0 == name;
    }
  }

  /** The end of a start leaves a deficit for exactly those components that the cleanup does not reach. */
  lemma EndOfStart(h: Host, failsAt: StartStep, raising: set<Component>)
    requires Sound(h) && h.starting
    ensures var h' := Apply(h, EndStart(failsAt, raising));
            && Sound(h') && DeficitsGrow(h, h')
            && (Leaks(h, EndStart(failsAt, raising)) <==> exists c :: CoreDeficit(h', c) > CoreDeficit(h, c))
            && (forall a :: AdapterDeficit(h', a) == AdapterDeficit(h, a))
  {
    hide Count, Cleanup, Creations, CreatedBefore, IsReached, CleansUp;
    var h' := Apply(h, EndStart(failsAt, raising));
    var creations, cleanup := Creations(failsAt), Cleanup(failsAt, raising);
    var log := if failsAt == Nowhere then creations else creations + cleanup;
    assert h'.log == log by { assert [] + creations == creations; }
    forall e
      ensures Count([], e) == 0
      ensures Count(creations, e) == if e.Create? && CreatedBefore(e.c, failsAt) then 1 else 0
      ensures Count(creations + cleanup, e) == Count(creations, e) + Count(cleanup, e)
      ensures Count(cleanup, e)
           == if e.StopCore? && CreatedBefore(e.c, failsAt) && IsReached(e.c, failsAt, raising) then 1 else 0
    {
      NoEffects(e);
      CreationCount(failsAt, e);
      CountConcat(creations, cleanup, e);
      CleanupCount(failsAt, raising, e);
    }
    AllCreated();
    if failsAt != Nowhere {
      CleanupIsCompleteExactlyIf(failsAt, raising);
      CoreDeficits(h, h', creations, cleanup);
    }
  }

  lemma CoreDeficits(h: Host, h': Host, creations: seq<Effect>, cleanup: seq<Effect>)
    requires h.log == [] && !h.services && !h'.services && h'.log == creations + cleanup
    requires forall c :: Count(creations, StopCore(c)) == 0 == Count(cleanup, Create(c))
    ensures forall c :: CoreDeficit(h', c) == Count(creations, Create(c)) - Count(cleanup, StopCore(c))
    ensures forall c :: CoreDeficit(h, c) == 0
  {
    forall c: Component
      ensures CoreDeficit(h', c) == Count(creations, Create(c)) - Count(cleanup, StopCore(c))
    {
      CountConcat(creations, cleanup, Create(c));
      CountConcat(creations, cleanup, StopCore(c));
    }
  }

  lemma BeginningOfAttach(h: Host, name: string, adapter: int)
    requires Sound(h)
    ensures var h' := Apply(h, BeginAttach(name, adapter)); Sound(h') && SameDeficits(h, h')
  {
    hide Count, IsAttached, TimesAttached;
    forall e
      ensures Count(h.log + [StartAdapter(adapter)], e)
           == Count(h.log, e) + (if e == StartAdapter(adapter) then 1 else 0)
    {
      CountSnoc(h.log, StartAdapter(adapter), e);
    }
    forall a
      ensures TimesAttached(h.waiting + [(name, adapter)], a)
           == TimesAttached(h.waiting, a) + (if a == adapter then 1 else 0)
    {
      AttachedConcat(h.waiting, [(name, adapter)], a);
      AttachedOne(name, adapter, a);
    }
  }

  lemma EndOfAttach(h: Host, place: nat, fails: bool)
    requires Sound(h) && place < |h.waiting|
    ensures var h' := Apply(h, EndAttach(place, fails));
            && Sound(h') && DeficitsGrow(h, h') && (forall c :: CoreDeficit(h', c) == CoreDeficit(h, c))
            && (Leaks(h, EndAttach(place, fails)) <==> exists a :: AdapterDeficit(h', a) > AdapterDeficit(h, a))
  {
    hide Count, IsAttached, TimesAttached, Put, Without;
    var (name, adapter) := h.waiting[place];
    forall e
      ensures Count(h.log + [StopAdapter(adapter)], e) == Count(h.log, e) + (if e == StopAdapter(adapter) then 1 else 0)
    {
      CountSnoc(h.log, StopAdapter(adapter), e);
    }
    forall a
      ensures TimesAttached(Without(h.waiting, place), a)
           == TimesAttached(h.waiting, a) - (if a == adapter then 1 else 0)
    {
      WithoutCount(h.waiting, place, a);
    }
    var gone := PutCount(h.adapters, name, adapter);
    var h' := Apply(h, EndAttach(place, fails));
    if Leaks(h, EndAttach(place, fails)) {
      var a := if h.services then gone else adapter;
      assert AdapterDeficit(h', a) > AdapterDeficit(h, a);
    }
  }

  lemma StopIsComplete(h: Host, raisingAdapters: set<int>, raising: set<Component>)
    requires Sound(h)
    ensures var h' := Apply(h, CallStop(raisingAdapters, raising));
            Sound(h') && SameDeficits(h, h') && h'.state == Stopped
  {
    hide Count, StopAdapters, TimesAttached;
    var h' := Apply(h, CallStop(raisingAdapters, raising));
    if h.services {
      forall e
        ensures Count(h'.log, e) == Count(h.log, e) + (if e.StopAdapter? then TimesAttached(h.adapters, e.a) else 0)
                                  + (if e.StopCore? then 1 else 0)
      {
        CountConcat(h.log, StopAdapters(h.adapters), e);
        CountConcat(h.log + StopAdapters(h.adapters), CORE_STOPS, e);
        AdapterStopCount(h.adapters, e);
        CoreStopCount(e);
      }
    }
  }

  /** No call makes a deficit smaller, and a call makes one bigger if and only if it leaks. */
  lemma LeakIsADeficit(h: Host, call: Call)
    requires Sound(h)
    ensures var h' := Apply(h, call);
            && Sound(h') && DeficitsGrow(h, h') && (!Leaks(h, call) <==> SameDeficits(h, h'))
  {
    hide Count, TimesAttached, Cleanup, Creations, IsAttached, AdapterDeficit, CoreDeficit, CleansUp;
    match call {
      case BeginStart =>
        var h' := Apply(h, call);
        assert forall a :: AdapterDeficit(h, a) == AdapterDeficit(h', a) by { Waiting(h, h'); }
        assert forall c :: CoreDeficit(h, c) == CoreDeficit(h', c) by { Waiting(h, h'); }
      case EndStart(failsAt, raising) =>
        if h.starting {
          EndOfStart(h, failsAt, raising);
        }
      case BeginAttach(name, adapter) => BeginningOfAttach(h, name, adapter);
      case EndAttach(place, fails) =>
        if place < |h.waiting| {
          EndOfAttach(h, place, fails);
        }
      case CallStop(raisingAdapters, raising) => StopIsComplete(h, raisingAdapters, raising);
    }
  }

  lemma Waiting(h: Host, h': Host)
    requires h'.log == h.log && h'.services == h.services && h'.waiting == h.waiting && h'.adapters == h.adapters
    ensures SameDeficits(h, h')
  {
  }

  /** After any calls, however they interleave and whatever fails, no deficit is negative, and what is
      running is what was started and not yet stopped if and only if no call leaked. */
  lemma {:induction false} RunIsBalancedExactlyIfNothingLeaks(calls: seq<Call>)
    ensures Sound(Run(FRESH, calls)) && DeficitsGrow(FRESH, Run(FRESH, calls))
    ensures Balanced(Run(FRESH, calls)) <==> NothingLeaks(calls)
  {
    hide Apply, Leaks, Count, AdapterDeficit, CoreDeficit;
    if calls == [] {
      assert Sound(FRESH) && Balanced(FRESH) by { FreshIsBalanced(); }
    } else {
      var front, last := calls[..|calls| - 1], calls[|calls| - 1];
      RunIsBalancedExactlyIfNothingLeaks(front);
      var h := Run(FRESH, front);
      hide Sound;
      LeakIsADeficit(h, last);
      FreshIsBalanced();
    }
  }

  lemma FreshIsBalanced()
    ensures Sound(FRESH) && Balanced(FRESH)
  {
  }

  /** Every component that was created and every adapter that was asked to start has been stopped just
      as often, components at most once. */
  ghost predicate AllStopped(log: seq<Effect>) {
    && (forall c :: Count(log, StopCore(c)) == Count(log, Create(c)) <= 1)
    && (forall a :: Count(log, StopAdapter(a)) == Count(log, StartAdapter(a)))
  }

  /** Once the host is stopped and nothing waits, after any interleaving of calls with any failures,
      everything has been stopped if and only if no call leaked. */
  lemma StoppedMeansAllStopped(calls: seq<Call>)
    requires Run(FRESH, calls).state == Stopped && Run(FRESH, calls).waiting == []
    ensures AllStopped(Run(FRESH, calls).log) <==> NothingLeaks(calls)
  {
    hide Count, Run, NothingLeaks, TimesAttached;
    RunIsBalancedExactlyIfNothingLeaks(calls);
    assert forall a :: TimesAttached([], a) == 0 by {
      forall a
        ensures TimesAttached([], a) == 0
      {
        NotAttached(a);
      }
    }
    var h := Run(FRESH, calls);
    assert forall a :: AdapterDeficit(h, a) == Count(h.log, StartAdapter(a)) - Count(h.log, StopAdapter(a));
    assert forall c :: CoreDeficit(h, c) == Count(h.log, Create(c)) - Count(h.log, StopCore(c));
  }

  /** An attachment that ends before anything else happens never leaks. */
  lemma AttachAtOnceNeverLeaks(h: Host, name: string, adapter: int, fails: bool)
    requires Sound(h) && h.waiting == []
    ensures !Leaks(Apply(h, BeginAttach(name, adapter)), EndAttach(0, fails))
  {
    hide Count;
  }

  /** A stop while an adapter starts leaves the adapter running on a stopped host, and no later stop reaches
      it. */
  lemma StopDuringAttachLeaks(again: seq<Call>)
    requires forall c | c in again :: c.CallStop?
    ensures var h := Run(FRESH, STOP_DURING_ATTACH + again);
            h.state == Stopped && h.waiting == [] && !h.starting && !AllStopped(h.log)
  {
    hide Count, Leaks;
    LastCallLeaks();
    StopsChangeNothing(STOP_DURING_ATTACH, again);
    LeakStays(STOP_DURING_ATTACH, again);
    StoppedMeansAllStopped(STOP_DURING_ATTACH + again);
  }

  const STOP_DURING_ATTACH: seq<Call> :=
    [BeginStart, EndStart(Nowhere, {}), BeginAttach("a", 1), CallStop({}, {}), EndAttach(0, false)]

  lemma LastCallLeaks()
    ensures !NothingLeaks(STOP_DURING_ATTACH)
    ensures var h := Run(FRESH, STOP_DURING_ATTACH); h.state == Stopped && h.waiting == [] && !h.starting
  {
    hide StopAdapters, Creations, Run, NothingLeaks;
    var start, started, attach := BeginStart, EndStart(Nowhere, {}), BeginAttach("a", 1);
    var stop, attached := CallStop({}, {}), EndAttach(0, false);
    assert Run(FRESH, []) == FRESH by { NoCall(FRESH); }
    assert [] + [start] == [start];
    RunSnoc([], start);
    assert [start] + [started] == [start, started];
    RunSnoc([start], started);
    assert [start, started] + [attach] == [start, started, attach];
    RunSnoc([start, started], attach);
    assert Run(FRESH, [start, started, attach]).waiting == [("a", 1)];
    assert [start, started, attach] + [stop] == [start, started, attach, stop];
    RunSnoc([start, started, attach], stop);
    assert [start, started, attach, stop] + [attached] == STOP_DURING_ATTACH;
    RunSnoc([start, started, attach, stop], attached);
  }

  lemma NoCall(h: Host)
    ensures Run(h, []) == h
  {
  }

  lemma RunSnoc(calls: seq<Call>, last: Call)
    ensures Run(FRESH, calls + [last]) == Apply(Run(FRESH, calls), last)
    ensures NothingLeaks(calls + [last]) <==> NothingLeaks(calls) && !Leaks(Run(FRESH, calls), last)
  {
    hide Apply, Leaks;
    assert (calls + [last])[..|calls|] == calls;
  }

  lemma {:induction false} StopsChangeNothing(calls: seq<Call>, again: seq<Call>)
    requires Run(FRESH, calls).state == Stopped && forall c | c in again :: c.CallStop?
    ensures Run(FRESH, calls + again) == Run(FRESH, calls)
  {
    if again == [] {
      assert calls + again == calls;
    } else {
      assert (calls + again)[..|calls + again| - 1] == calls + again[..|again| - 1];
      assert again[|again| - 1] in again;
      StopsChangeNothing(calls, again[..|again| - 1]);
    }
  }

  lemma {:induction false} LeakStays(calls: seq<Call>, again: seq<Call>)
    requires !NothingLeaks(calls)
    ensures !NothingLeaks(calls + again)
  {
    if again == [] {
      assert calls + again == calls;
    } else {
      assert (calls + again)[..|calls + again| - 1] == calls + again[..|again| - 1];
      LeakStays(calls, again[..|again| - 1]);
    }
  }

  /** The adapters are attached under distinct names, whatever the order of the calls. */
  lemma {:induction false} NamesStayDistinct(calls: seq<Call>)
    ensures forall i, j | 0 <= i < j < |Run(FRESH, calls).adapters| ::
              Run(FRESH, calls).adapters[i].0 != Run(FRESH, calls).adapters[j].0
  {
    if calls != [] {
      var front, last := calls[..|calls| - 1], calls[|calls| - 1];
      NamesStayDistinct(front);
      var h := Run(FRESH, front);
      if last.EndAttach? && last.place < |h.waiting| {
        hide Put;
        PutExactly(h.adapters, h.waiting[last.place].0, h.waiting[last.place].1);
      }
    }
  }

  /** A stop takes the adapters in the reverse of the order in which they were attached, then the core,
      whoever raises. */
  lemma StopsInReverseOrder(h: Host, raisingAdapters: set<int>, raising: set<Component>, i: nat)
    requires h.services && h.state != New && h.state != Stopped && i < |h.adapters|
    ensures var log := Apply(h, CallStop(raisingAdapters, raising)).log;
            && |log| == |h.log| + |h.adapters| + 4
            && log[|h.log| + i] == StopAdapter(h.adapters[|h.adapters| - 1 - i].1)
            && log[|log| - 4..] == [StopCore(Commands), StopCore(Store), StopCore(Execution), StopCore(Pool)]
  {
    hide StopAdapters;
    ReversedAt(h.adapters, i);
    var stops := StopAdapters(h.adapters);
    assert (h.log + stops + CORE_STOPS)[|h.log| + i] == stops[i];
  }

  lemma {:induction false} ReversedAt(adapters: Adapters, i: nat)
    requires i < |adapters|
    ensures |StopAdapters(adapters)| == |adapters|
    ensures StopAdapters(adapters)[i] == StopAdapter(adapters[|adapters| - 1 - i].1)
  {
    var front := adapters[..|adapters| - 1];
    if front == [] {
    } else if i > 0 {
      ReversedAt(front, i - 1);
    } else {
      ReversedAt(front, 0);
    }
  }
}

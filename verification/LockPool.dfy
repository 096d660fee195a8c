/** The bounded pools of per-chat locks and stop events (src/kai/locks.py) and the runs of the tasks
    that use the locks. A lock is released before its first waiter resumes. */
module LockPool {
  import opened Options

  const MAX_LOCKS: nat := 64

  ghost predicate DistinctChats(order: seq<int>) {
    forall i, j | 0 <= i < j < |order| :: order[i] != order[j]
  }

  ghost predicate SameChats(order: seq<int>, lockOf: map<int, nat>) {
    (forall i | 0 <= i < |order| :: order[i] in lockOf) && (forall c | c in lockOf :: c in order)
  }

  ghost predicate DistinctLocks(lockOf: map<int, nat>) {
    forall c, d | c in lockOf && d in lockOf && lockOf[c] == lockOf[d] :: c == d
  }

  ghost predicate LocksBelow(lockOf: map<int, nat>, bound: nat) {
    forall c | c in lockOf :: lockOf[c] < bound
  }

  /** The dictionary in insertion order; `nextId` is the identity of the next object. */
  datatype Pool = Pool(order: seq<int>, lockOf: map<int, nat>, nextId: nat) {
    ghost predicate Valid() {
      DistinctChats(order) && SameChats(order, lockOf) && DistinctLocks(lockOf) && LocksBelow(lockOf, nextId)
    }
  }

  /** The first entry that is not active, or the number of entries. */
  function FirstIdle(pool: Pool, active: set<nat>, i: nat): (r: nat)
    requires pool.Valid() && i <= |pool.order|
    ensures i <= r <= |pool.order|
    ensures forall k | i <= k < r :: pool.lockOf[pool.order[k]] in active
    ensures r < |pool.order| ==> pool.lockOf[pool.order[r]] !in active
    decreases |pool.order| - i
  {
    if i == |pool.order| || pool.lockOf[pool.order[i]] !in active then i else FirstIdle(pool, active, i + 1)
  }

  function Without(pool: Pool, i: nat): Pool
    requires i < |pool.order|
  {
    Pool(pool.order[..i] + pool.order[i + 1..], pool.lockOf - {pool.order[i]}, pool.nextId)
  }

  function Evict(pool: Pool, active: set<nat>): Pool
    requires pool.Valid()
  {
    var i := FirstIdle(pool, active, 0);
    if |pool.order| < MAX_LOCKS || i == |pool.order| then pool else Without(pool, i)
  }

  /** `get_lock` and, with set events as the active entries, `get_stop_event`. */
  function Get(pool: Pool, active: set<nat>, chat: int): (Pool, nat)
    requires pool.Valid()
  {
    if chat in pool.lockOf then (pool, pool.lockOf[chat]) else
      var p := Evict(pool, active);
      (Pool(p.order + [chat], p.lockOf[chat := p.nextId], p.nextId + 1), p.nextId)
  }

  lemma OrderWithout(order: seq<int>, i: nat)
    requires i < |order| && DistinctChats(order)
    ensures var rest := order[..i] + order[i + 1..];
            DistinctChats(rest) && order[i] !in rest && forall c :: c in rest <==> c in order && c != order[i]
  {
    var rest := order[..i] + order[i + 1..];
    forall c | c in order && c != order[i]
      ensures c in rest
    {
      var k :| 0 <= k < |order| && order[k] == c;
      assert c == rest[if k < i then k else k - 1];
    }
  }

  lemma WithoutIsValid(pool: Pool, i: nat)
    requires pool.Valid() && i < |pool.order|
    ensures Without(pool, i).Valid() && pool.order[i] in pool.lockOf
  {
    hide DistinctChats;
    OrderWithout(pool.order, i);
  }

  lemma AddedIsValid(pool: Pool, chat: int)
    requires pool.Valid() && chat !in pool.lockOf
    ensures Pool(pool.order + [chat], pool.lockOf[chat := pool.nextId], pool.nextId + 1).Valid()
  {
    assert chat !in pool.order;
  }

  lemma GetIsValid(pool: Pool, active: set<nat>, chat: int)
    requires pool.Valid()
    ensures Get(pool, active, chat).0.Valid()
  {
    hide DistinctChats, SameChats, DistinctLocks, LocksBelow;
    if chat !in pool.lockOf {
      var i := FirstIdle(pool, active, 0);
      if i < |pool.order| {
        WithoutIsValid(pool, i);
      }
      AddedIsValid(Evict(pool, active), chat);
    }
  }

  ghost predicate IsFullWithIdle(pool: Pool, active: set<nat>) {
    |pool.order| >= MAX_LOCKS && exists c :: c in pool.lockOf && pool.lockOf[c] !in active
  }

  /** The entry of the chat replaces the one at i, the oldest that is not active. */
  ghost predicate IsReplaced(before: Pool, active: set<nat>, chat: int, after: Pool, i: int)
    requires before.Valid()
  {
    && 0 <= i < |before.order| && before.lockOf[before.order[i]] !in active
    && (forall k | 0 <= k < i :: before.lockOf[before.order[k]] in active)
    && after.order == before.order[..i] + before.order[i + 1..] + [chat]
    && after.lockOf == (before.lockOf - {before.order[i]})[chat := before.nextId]
  }

  /** A chat in the pool keeps its entry and nothing changes. Any other gets a new one at the end; for it,
      a full pool gives up the oldest entry that is not active, and grows if all are. */
  ghost predicate IsEntry(before: Pool, active: set<nat>, chat: int, after: Pool, lock: nat)
    requires before.Valid()
  {
    if chat in before.lockOf then after == before && lock == before.lockOf[chat] else
      && lock == before.nextId && after.nextId == lock + 1
      && (if IsFullWithIdle(before, active) then exists i :: IsReplaced(before, active, chat, after, i)
          else after.order == before.order + [chat] && after.lockOf == before.lockOf[chat := lock])
  }

  lemma GetIsEntry(pool: Pool, active: set<nat>, chat: int)
    requires pool.Valid()
    ensures IsEntry(pool, active, chat, Get(pool, active, chat).0, Get(pool, active, chat).1)
  {
    hide DistinctChats, DistinctLocks, LocksBelow;
    var i := FirstIdle(pool, active, 0);
    if IsFullWithIdle(pool, active) {
      var c :| c in pool.lockOf && pool.lockOf[c] !in active;
      var k :| 0 <= k < |pool.order| && pool.order[k] == c;
      assert i <= k;
      assert chat !in pool.lockOf ==> IsReplaced(pool, active, chat, Get(pool, active, chat).0, i);
    } else if i < |pool.order| {
      var c := pool.order[i];
      assert c in pool.lockOf && pool.lockOf[c] !in active;
      assert |pool.order| < MAX_LOCKS;
      assert Evict(pool, active) == pool;
    }
  }

  class BoundedPool {
    var order: seq<int>
    var lockOf: map<int, nat>
    var nextId: nat

    ghost function Now(): Pool
      reads this
    {
      Pool(order, lockOf, nextId)
    }

    constructor ()
      ensures Now() == Pool([], map[], 0)
    {
      order, lockOf, nextId := [], map[], 0;
    }

    method GetEntry(chat: int, active: set<nat>) returns (lock: nat)
      requires Now().Valid()
      modifies this
      ensures Now().Valid() && (Now(), lock) == Get(old(Now()), active, chat)
      ensures IsEntry(old(Now()), active, chat, Now(), lock)
    {
      hide IsEntry;
      GetIsEntry(Now(), active, chat);
      GetIsValid(Now(), active, chat);
      if chat in lockOf {
        return lockOf[chat];
      }
      if |order| >= MAX_LOCKS {
        ghost var before := Now();
        ghost var first := FirstIdle(before, active, 0);
        for i := 0 to |order|
          invariant Now() == before && i <= first
        {
          if lockOf[order[i]] !in active {
            assert i == first;
            lockOf := lockOf - {order[i]};
            order := order[..i] + order[i + 1..];
            break;
          }
        }
        assert Now() == Evict(before, active);
      }
      lock := nextId;
      order := order + [chat];
      lockOf := lockOf[chat := nextId];
      nextId := nextId + 1;
    }
  }

  // ----- tasks and locks

  /** An asyncio lock: its holder and, in order, the tasks that wait for it. */
  datatype Lock = Lock(chat: int, holder: Maybe<int>, waiters: seq<int>)

  datatype System = System(pool: Pool, locks: map<nat, Lock>)

  datatype Event =
    | Enter(task: int, chat: int)      // get the lock of a chat and acquire it, or wait for it
    | Peek(chat: int)                  // get the lock of a chat to see whether it is held
    | Release(lock: nat)               // from here to Resume the lock reads as not held
    | Resume(lock: nat)                // the first waiter takes the released lock
    | GiveUp(lock: nat, task: int)     // a waiter times out

  predicate IsHeld(sys: System, l: nat) {
    l in sys.locks && sys.locks[l].holder.Some?
  }

  predicate IsBusy(sys: System, l: nat) {
    l in sys.locks && (sys.locks[l].holder.Some? || sys.locks[l].waiters != [])
  }

  /** What `locked()` answers true for. */
  function Held(sys: System): set<nat> {
    set l | l in sys.locks && IsHeld(sys, l)
  }

  function Look(sys: System, chat: int): (System, nat)
    requires sys.pool.Valid()
  {
    var (p, l) := Get(sys.pool, Held(sys), chat);
    (System(p, if chat in sys.pool.lockOf then sys.locks else sys.locks[l := Lock(chat, None, [])]), l)
  }

  function Drop(tasks: seq<int>, task: int): seq<int> {
    if tasks == [] then [] else if tasks[0] == task then tasks[1..] else [tasks[0]] + Drop(tasks[1..], task)
  }

  lemma DropCons(first: int, rest: seq<int>, task: int)
    ensures Drop([first] + rest, task) == if first == task then rest else [first] + Drop(rest, task)
  {
    assert ([first] + rest)[1..] == rest;
  }

  /** A task that gives up leaves the queue once, and the others keep their order. */
  lemma {:induction false} DropExactly(before: seq<int>, task: int, after: seq<int>)
    requires task !in before
    ensures Drop(before + [task] + after, task) == before + after
    ensures Drop(before, task) == before
  {
    hide Drop;
    if before == [] {
      assert before + [task] + after == [task] + after && before + after == after;
      DropCons(task, after, task);
      assert Drop([], task) == [] by { NothingDropped(task); }
    } else {
      var first, rest := before[0], before[1..];
      assert before == [first] + rest;
      assert before + [task] + after == [first] + (rest + [task] + after);
      DropExactly(rest, task, after);
      DropCons(first, rest, task);
      DropCons(first, rest + [task] + after, task);
    }
  }

  lemma NothingDropped(task: int)
    ensures Drop([], task) == []
  {
  }

  function Step(sys: System, e: Event): System
    requires Inv(sys)
  {
    match e
    case Enter(task, chat) =>
      var (s, l) := Look(sys, chat);
      assert l in s.locks;
      var lock := s.locks[l];
      s.(locks := s.locks[l := if lock.holder.None? && lock.waiters == [] then lock.(holder := Some(task))
                               else lock.(waiters := lock.waiters + [task])])
    case Peek(chat) => Look(sys, chat).0
    case Release(l) => if l in sys.locks then sys.(locks := sys.locks[l := sys.locks[l].(holder := None)]) else sys
    case Resume(l) =>
      if l in sys.locks && sys.locks[l].holder.None? && sys.locks[l].waiters != []
      then sys.(locks := sys.locks[l := sys.locks[l].(holder := Some(sys.locks[l].waiters[0]),
          waiters := sys.locks[l].waiters[1..])])
      else sys
    case GiveUp(l, task) =>
      if l in sys.locks then sys.(locks := sys.locks[l := sys.locks[l].(waiters := Drop(sys.locks[l].waiters, task))])
      else sys
  }

  /** The pool and the locks fit together. */
  ghost predicate Inv(sys: System) {
    && sys.pool.Valid()
    && (forall c | c in sys.pool.lockOf :: sys.pool.lockOf[c] in sys.locks && sys.locks[sys.pool.lockOf[c]].chat == c)
    && (forall l | l in sys.locks :: l < sys.pool.nextId)
  }

  /** Every lock that is held or waited for is the lock that its chat would get. */
  ghost predicate BusyLocksArePooled(sys: System) {
    forall l | IsBusy(sys, l) :: sys.locks[l].chat in sys.pool.lockOf && sys.pool.lockOf[sys.locks[l].chat] == l
  }

  ghost predicate OneHolderPerChat(sys: System) {
    forall k, l | IsHeld(sys, k) && IsHeld(sys, l) && sys.locks[k].chat == sys.locks[l].chat :: k == l
  }

  lemma PooledMeansOneHolder(sys: System)
    requires BusyLocksArePooled(sys)
    ensures OneHolderPerChat(sys)
  {
  }

  /** The entry that a call of get_lock evicts, if it evicts one. */
  function Evicted(sys: System, chat: int): Maybe<nat>
    requires sys.pool.Valid()
  {
    var i := FirstIdle(sys.pool, Held(sys), 0);
    if chat in sys.pool.lockOf || |sys.pool.order| < MAX_LOCKS || i == |sys.pool.order| then None
    else
      assert sys.pool.order[i] in sys.pool.lockOf;
      Some(sys.pool.lockOf[sys.pool.order[i]])
  }

  lemma EvictedIsIdle(sys: System, chat: int)
    requires Inv(sys) && Evicted(sys, chat).Some?
    ensures var l := Evicted(sys, chat).value; l in sys.locks && !IsHeld(sys, l)
  {
    var i := FirstIdle(sys.pool, Held(sys), 0);
    var c := sys.pool.order[i];
    assert c in sys.pool.lockOf && sys.pool.lockOf[c] in sys.locks;
    assert sys.pool.lockOf[c] !in Held(sys);
  }

  /** The event does not evict a lock that somebody waits for. */
  ghost predicate IsSafe(sys: System, e: Event)
    requires Inv(sys)
  {
    (e.Enter? || e.Peek?) ==>
      var l := Evicted(sys, e.chat);
      l.Some? ==> l.value in sys.locks && sys.locks[l.value].waiters == []
  }

  lemma LookKeeps(sys: System, chat: int)
    requires Inv(sys)
    ensures var (s, l) := Look(sys, chat);
            && Inv(s) && chat in s.pool.lockOf && s.pool.lockOf[chat] == l && s.locks[l].chat == chat
            && (forall k | k in sys.locks :: k in s.locks && s.locks[k] == sys.locks[k])
            && (forall k | k in s.locks && k !in sys.locks :: k == l && s.locks[k] == Lock(chat, None, []))
            && (forall c | c in sys.pool.lockOf ::
                  if Evicted(sys, chat) == Some(sys.pool.lockOf[c]) then c !in s.pool.lockOf
                  else c in s.pool.lockOf && s.pool.lockOf[c] == sys.pool.lockOf[c])
  {
    GetIsValid(sys.pool, Held(sys), chat);
  }

  /** No lock that is held is ever evicted. */
  lemma HeldLockStaysPooled(sys: System, e: Event, c: int)
    requires Inv(sys) && c in sys.pool.lockOf && IsHeld(sys, sys.pool.lockOf[c])
    ensures c in Step(sys, e).pool.lockOf && Step(sys, e).pool.lockOf[c] == sys.pool.lockOf[c]
  {
    if e.Enter? || e.Peek? {
      LookKeeps(sys, e.chat);
    }
  }

  lemma StepKeepsInv(sys: System, e: Event)
    requires Inv(sys)
    ensures Inv(Step(sys, e))
  {
    if e.Enter? || e.Peek? {
      LookKeeps(sys, e.chat);
    }
  }

  // ----- what keeps busy locks in the pool

  /** Every busy lock but one is the lock that its chat would get, and the chat of that one would get a
      new lock. */
  ghost predicate BusyLocksArePooledBut(sys: System, gone: nat) {
    && gone in sys.locks && sys.locks[gone].chat !in sys.pool.lockOf
    && forall l | IsBusy(sys, l) && l != gone ::
         sys.locks[l].chat in sys.pool.lockOf && sys.pool.lockOf[sys.locks[l].chat] == l
  }

  lemma PooledButMeansOneHolder(sys: System, gone: nat)
    requires BusyLocksArePooledBut(sys, gone)
    ensures OneHolderPerChat(sys)
  {
  }

  function With(sys: System, l: nat, lock: Lock): System {
    sys.(locks := sys.locks[l := lock])
  }

  /** A lock that was busy before, or is pooled, may become or stay busy. */
  lemma WithKeepsPooled(sys: System, l: nat, lock: Lock)
    requires l in sys.locks && lock.chat == sys.locks[l].chat
    requires (lock.holder.Some? || lock.waiters != []) ==>
               IsBusy(sys, l) || (lock.chat in sys.pool.lockOf && sys.pool.lockOf[lock.chat] == l)
    ensures BusyLocksArePooled(sys) ==> BusyLocksArePooled(With(sys, l, lock))
    ensures forall gone | BusyLocksArePooledBut(sys, gone) :: BusyLocksArePooledBut(With(sys, l, lock), gone)
  {
    assert forall k | IsBusy(With(sys, l, lock), k) && k != l :: IsBusy(sys, k);
  }

  /** A lookup evicts at most one lock, which is not held. */
  lemma LookKeepsPooled(sys: System, chat: int)
    requires Inv(sys) && BusyLocksArePooled(sys)
    ensures var s, gone := Look(sys, chat).0, Evicted(sys, chat);
            if gone.Some? && gone.value in sys.locks && sys.locks[gone.value].waiters != []
            then IsBusy(s, gone.value) && BusyLocksArePooledBut(s, gone.value) else BusyLocksArePooled(s)
  {
    hide Look, Evicted;
    LookKeeps(sys, chat);
    var s, l := Look(sys, chat).0, Look(sys, chat).1;
    var gone := Evicted(sys, chat);
    assert forall k | IsBusy(s, k) :: IsBusy(sys, k);
    if gone.Some? {
      EvictedIsIdle(sys, chat);
    }
  }

  lemma EnterIsLookAndTouch(sys: System, task: int, chat: int)
    requires Inv(sys)
    ensures var (s, l) := Look(sys, chat);
            && l in s.locks && s.locks[l].chat == chat && chat in s.pool.lockOf && s.pool.lockOf[chat] == l
            && exists lock: Lock :: lock.chat == chat && (lock.holder.Some? || lock.waiters != [])
                                    && Step(sys, Enter(task, chat)) == With(s, l, lock)
  {
    hide Look;
    LookKeeps(sys, chat);
    var (s, l) := Look(sys, chat);
    assert Step(sys, Enter(task, chat)) == With(s, l, Step(sys, Enter(task, chat)).locks[l]);
  }

  /** What a lookup does to the pool, `Enter` and `Peek` do. */
  lemma LookupKeepsPooled(sys: System, e: Event)
    requires Inv(sys) && BusyLocksArePooled(sys) && (e.Enter? || e.Peek?)
    ensures IsSafe(sys, e) ==> BusyLocksArePooled(Step(sys, e))
    ensures !IsSafe(sys, e) ==> exists gone :: IsBusy(sys, gone) && BusyLocksArePooledBut(Step(sys, e), gone)
                                               && IsBusy(Step(sys, e), gone)
  {
    hide Look, Evicted, BusyLocksArePooled, BusyLocksArePooledBut;
    LookKeepsPooled(sys, e.chat);
    if Evicted(sys, e.chat).Some? {
      EvictedIsIdle(sys, e.chat);
    }
    var (s, l) := Look(sys, e.chat);
    if e.Enter? {
      EnterIsLookAndTouch(sys, e.task, e.chat);
      hide Step;
      var lock: Lock :| lock.chat == e.chat && (lock.holder.Some? || lock.waiters != [])
          && Step(sys, e) == With(s, l, lock);
      WithKeepsPooled(s, l, lock);
    } else {
      assert Step(sys, e) == s;
    }
    if !IsSafe(sys, e) {
      var gone := Evicted(sys, e.chat).value;
      assert IsBusy(sys, gone) && BusyLocksArePooledBut(Step(sys, e), gone) && IsBusy(Step(sys, e), gone);
    }
  }

  lemma OtherEventKeepsPooled(sys: System, e: Event)
    requires Inv(sys) && !e.Enter? && !e.Peek?
    ensures BusyLocksArePooled(sys) ==> BusyLocksArePooled(Step(sys, e))
    ensures forall gone | BusyLocksArePooledBut(sys, gone) :: BusyLocksArePooledBut(Step(sys, e), gone)
  {
    hide BusyLocksArePooled, BusyLocksArePooledBut, Inv;
    var l := match e case Release(k) => k case Resume(k) => k case GiveUp(k, _) => k case _ => 0;
    if l in sys.locks && Step(sys, e) != sys {
      var lock := Step(sys, e).locks[l];
      assert Step(sys, e) == With(sys, l, lock);
      WithKeepsPooled(sys, l, lock);
    }
  }

  /** An event keeps busy locks in the pool exactly when it evicts none that somebody waits for. */
  lemma StepKeepsBusyLocksPooled(sys: System, e: Event)
    requires Inv(sys) && BusyLocksArePooled(sys)
    ensures BusyLocksArePooled(Step(sys, e)) <==> IsSafe(sys, e)
  {
    hide Step, Inv, Evicted;
    if e.Enter? || e.Peek? {
      LookupKeepsPooled(sys, e);
    } else {
      OtherEventKeepsPooled(sys, e);
    }
  }

  // ----- runs

  const EMPTY: System := System(Pool([], map[], 0), map[])

  lemma EmptyIsFine()
    ensures Inv(EMPTY) && BusyLocksArePooled(EMPTY)
  {
  }

  function After(sys: System, events: seq<Event>): (r: System)
    requires Inv(sys)
    ensures Inv(r)
    decreases |events|
  {
    if events == [] then sys else
      StepKeepsInv(sys, events[0]);
      After(Step(sys, events[0]), events[1..])
  }

  /** No event of the run evicts a lock that somebody waits for. */
  ghost predicate IsSafeRun(sys: System, events: seq<Event>)
    requires Inv(sys)
    decreases |events|
  {
    events != [] ==>
      IsSafe(sys, events[0])
      && (StepKeepsInv(sys, events[0]); IsSafeRun(Step(sys, events[0]), events[1..]))
  }

  /** In a run without such an eviction every chat has at most one holder after every event. */
  lemma {:induction false} OneHolderInEveryRun(sys: System, events: seq<Event>, i: nat)
    requires Inv(sys) && BusyLocksArePooled(sys) && IsSafeRun(sys, events) && i <= |events|
    ensures OneHolderPerChat(After(sys, events[..i])) && BusyLocksArePooled(After(sys, events[..i]))
    decreases |events|
  {
    hide Step, IsSafe, Inv, BusyLocksArePooled, OneHolderPerChat;
    PooledMeansOneHolder(sys);
    if i == 0 {
      assert events[..i] == [];
    } else {
      var e := events[0];
      StepKeepsInv(sys, e);
      StepKeepsBusyLocksPooled(sys, e);
      OneHolderInEveryRun(Step(sys, e), events[1..], i - 1);
      assert events[..i] == [e] + events[1..][..i - 1];
      AfterCons(sys, e, events[1..][..i - 1]);
    }
  }

  /** A lock that was released and has waiters, none of which has resumed yet. */
  ghost predicate InHandover(sys: System, l: nat) {
    IsBusy(sys, l) && !IsHeld(sys, l)
  }

  /** Where no lock is being handed over, every event is safe. */
  lemma NoHandoverIsSafe(sys: System, e: Event)
    requires Inv(sys) && (e.Enter? || e.Peek? ==> forall l :: !InHandover(sys, l))
    ensures IsSafe(sys, e)
  {
    if (e.Enter? || e.Peek?) && Evicted(sys, e.chat).Some? {
      EvictedIsIdle(sys, e.chat);
      assert !InHandover(sys, Evicted(sys, e.chat).value);
    }
  }

  /** In the gap it goes wrong: if a lock in handover is evicted, the next task of its chat holds a
      second lock, and once the waiter resumes there are two holders. */
  lemma EvictionInTheGapGivesTwoHolders(sys: System, l: nat, newcomer: Event, task: int)
    requires Inv(sys) && InHandover(sys, l)
    requires (newcomer.Enter? || newcomer.Peek?) && Evicted(sys, newcomer.chat) == Some(l)
    ensures !OneHolderPerChat(After(sys, [newcomer, Enter(task, sys.locks[l].chat), Resume(l)]))
  {
    hide After;
    var chat := sys.locks[l].chat;
    var enter, resume := Enter(task, chat), Resume(l);
    LookKeeps(sys, newcomer.chat);
    StepKeepsInv(sys, newcomer);
    var s1 := Step(sys, newcomer);
    assert chat !in s1.pool.lockOf && s1.locks[l] == sys.locks[l];
    TwoHolders(s1, l, task);
    AfterThree(sys, newcomer, enter, resume);
  }

  lemma TwoHolders(sys: System, l: nat, task: int)
    requires Inv(sys) && InHandover(sys, l) && sys.locks[l].chat !in sys.pool.lockOf
    ensures var enter := Enter(task, sys.locks[l].chat);
            Inv(Step(sys, enter)) && !OneHolderPerChat(Step(Step(sys, enter), Resume(l)))
  {
    var chat := sys.locks[l].chat;
    var enter, resume := Enter(task, chat), Resume(l);
    LookKeeps(sys, chat);
    StepKeepsInv(sys, enter);
    var s2 := Step(sys, enter);
    var other := s2.pool.lockOf[chat];
    assert other != l && s2.locks[l] == sys.locks[l];
    assert IsHeld(s2, other);
    var s3 := Step(s2, resume);
    assert IsHeld(s3, l) && IsHeld(s3, other) && s3.locks[other].chat == chat;
  }

  // ----- the exact condition

  /** A task that enters and a waiter that resumes do not bring about a second holder. */
  ghost predicate StaysExclusive(sys: System)
    requires Inv(sys)
  {
    forall task, chat, l :: OneHolderPerChat(After(sys, [Enter(task, chat), Resume(l)]))
  }

  lemma PooledStaysExclusive(sys: System)
    requires Inv(sys) && BusyLocksArePooled(sys)
    ensures StaysExclusive(sys)
  {
    hide Step, IsSafe, Inv, BusyLocksArePooled, BusyLocksArePooledBut, OneHolderPerChat, After;
    forall task, chat, l
      ensures OneHolderPerChat(After(sys, [Enter(task, chat), Resume(l)]))
    {
      var enter := Enter(task, chat);
      AfterTwo(sys, enter, Resume(l));
      LookupKeepsPooled(sys, enter);
      StepKeepsInv(sys, enter);
      var s := Step(sys, enter);
      OtherEventKeepsPooled(s, Resume(l));
      if IsSafe(sys, enter) {
        PooledMeansOneHolder(Step(s, Resume(l)));
      } else {
        var gone :| BusyLocksArePooledBut(s, gone);
        PooledButMeansOneHolder(Step(s, Resume(l)), gone);
      }
    }
  }

  /** An event is safe if and only if no task that enters next and no waiter that then resumes can
      become a second holder of a chat. */
  lemma SafeExactlyIfExclusive(sys: System, e: Event, after: System)
    requires Inv(sys) && BusyLocksArePooled(sys) && after == Step(sys, e)
    ensures Inv(after) && (IsSafe(sys, e) <==> StaysExclusive(after))
  {
    hide Step, BusyLocksArePooled, BusyLocksArePooledBut, OneHolderPerChat, After, Evicted;
    StepKeepsInv(sys, e);
    StepKeepsBusyLocksPooled(sys, e);
    if IsSafe(sys, e) {
      PooledStaysExclusive(after);
    } else {
      EvictedIsIdle(sys, e.chat);
      var l := Evicted(sys, e.chat).value;
      var chat := sys.locks[l].chat;
      EvictionInTheGapGivesTwoHolders(sys, l, e, 0);
      AfterCons(sys, e, [Enter(0, chat), Resume(l)]);
      assert [e] + [Enter(0, chat), Resume(l)] == [e, Enter(0, chat), Resume(l)];
    }
  }

  /** A run is free of such evictions if and only if at no point of it two more events could give a chat
      two holders. */
  lemma {:induction false} RunIsSafeExactlyIfExclusive(sys: System, events: seq<Event>)
    requires Inv(sys) && BusyLocksArePooled(sys)
    ensures IsSafeRun(sys, events) <==> forall i | 0 <= i <= |events| :: StaysExclusive(After(sys, events[..i]))
    decreases |events|
  {
    hide Step, IsSafe, Inv, BusyLocksArePooled, StaysExclusive, After;
    PooledStaysExclusive(sys);
    AfterNone(sys);
    if events != [] {
      var e, rest := events[0], events[1..];
      StepKeepsInv(sys, e);
      StepKeepsBusyLocksPooled(sys, e);
      SafeExactlyIfExclusive(sys, e, Step(sys, e));
      forall i | 0 < i <= |events|
        ensures After(sys, events[..i]) == After(Step(sys, e), rest[..i - 1])
      {
        assert events[..i] == [e] + rest[..i - 1];
        AfterCons(sys, e, rest[..i - 1]);
      }
      AfterNone(Step(sys, e));
      assert rest[..0] == [];
      if IsSafe(sys, e) {
        RunIsSafeExactlyIfExclusive(Step(sys, e), rest);
        if forall i | 0 <= i <= |events| :: StaysExclusive(After(sys, events[..i])) {
          forall j | 0 <= j <= |rest|
            ensures StaysExclusive(After(Step(sys, e), rest[..j]))
          {
            assert StaysExclusive(After(sys, events[..j + 1]));
          }
        }
      } else {
        assert !StaysExclusive(After(sys, events[..1]));
      }
    }
    assert events[..0] == [];
  }

  lemma AfterNone(sys: System)
    requires Inv(sys)
    ensures After(sys, []) == sys
  {
  }

  lemma AfterTwo(sys: System, a: Event, b: Event)
    requires Inv(sys)
    ensures Inv(Step(sys, a)) && After(sys, [a, b]) == Step(Step(sys, a), b)
  {
    hide Step, Inv, After;
    AfterCons(sys, a, [b]);
    assert [a] + [b] == [a, b] && [b] + [] == [b];
    AfterCons(Step(sys, a), b, []);
    AfterNone(Step(Step(sys, a), b));
  }

  lemma AfterThree(sys: System, a: Event, b: Event, c: Event)
    requires Inv(sys)
    ensures Inv(Step(sys, a)) && Inv(Step(Step(sys, a), b))
    ensures After(sys, [a, b, c]) == Step(Step(Step(sys, a), b), c)
  {
    hide Step, Inv, After;
    AfterCons(sys, a, [b, c]);
    assert [a] + [b, c] == [a, b, c];
    AfterTwo(Step(sys, a), b, c);
  }

  lemma AfterCons(sys: System, e: Event, rest: seq<Event>)
    requires Inv(sys)
    ensures Inv(Step(sys, e)) && After(sys, [e] + rest) == After(Step(sys, e), rest)
  {
    hide Step, Inv;
    StepKeepsInv(sys, e);
    assert ([e] + rest)[1..] == rest;
  }

  lemma {:induction false} AfterConcat(sys: System, a: seq<Event>, b: seq<Event>)
    requires Inv(sys)
    ensures After(sys, a + b) == After(After(sys, a), b)
    decreases |a|
  {
    hide Step, Inv, After;
    if a == [] {
      assert a + b == b;
      AfterNone(sys);
    } else {
      assert a + b == [a[0]] + (a[1..] + b) && a == [a[0]] + a[1..];
      AfterCons(sys, a[0], a[1..] + b);
      AfterCons(sys, a[0], a[1..]);
      AfterConcat(Step(sys, a[0]), a[1..], b);
    }
  }

  // ----- such a run exists

  /** Tasks 0 to n - 1 enter chats of their own. */
  function Entering(n: nat): seq<Event> {
    seq(n, i requires 0 <= i < n => Enter(i, i))
  }

  /** The system then: every task holds the lock of its chat. */
  function Filled(n: nat): System {
    if n == 0 then EMPTY else
      var (pool, locks) := (Filled(n - 1).pool, Filled(n - 1).locks);
      System(Pool(pool.order + [n - 1], pool.lockOf[n - 1 := n - 1], n), locks[n - 1 := Lock(n - 1, Some(n - 1), [])])
  }

  ghost predicate IsFilled(s: System, n: nat) {
    && |s.pool.order| == n == s.pool.nextId && (forall i | 0 <= i < n :: s.pool.order[i] == i)
    && (forall c :: c in s.pool.lockOf <==> 0 <= c < n) && (forall c | 0 <= c < n :: s.pool.lockOf[c] == c)
    && (forall l: nat :: l in s.locks <==> l < n) && (forall l: nat | l < n :: s.locks[l] == Lock(l, Some(l), []))
  }

  lemma {:induction false} FilledIs(n: nat)
    ensures IsFilled(Filled(n), n)
  {
    if n > 0 {
      FilledIs(n - 1);
    }
  }

  lemma FilledIsInv(s: System, n: nat)
    requires IsFilled(s, n)
    ensures Inv(s)
  {
    forall c | c in s.pool.lockOf
      ensures c in s.pool.order
    {
      assert s.pool.order[c] == c;
    }
  }

  lemma EnterNewChat(sys: System, task: int, chat: int)
    requires Inv(sys) && chat !in sys.pool.lockOf && |sys.pool.order| < MAX_LOCKS
    ensures var (p, id) := (sys.pool, sys.pool.nextId);
            Step(sys, Enter(task, chat))
            == System(Pool(p.order + [chat], p.lockOf[chat := id], id + 1), sys.locks[id := Lock(chat, Some(task), [])])
  {
    hide FirstIdle, DistinctChats, SameChats, DistinctLocks, LocksBelow;
    var id := sys.pool.nextId;
    assert sys.locks[id := Lock(chat, None, [])][id := Lock(chat, Some(task), [])]
        == sys.locks[id := Lock(chat, Some(task), [])];
  }

  lemma FillOneMore(n: nat)
    requires n < MAX_LOCKS
    ensures Inv(Filled(n)) && Step(Filled(n), Enter(n, n)) == Filled(n + 1)
  {
    hide Step, Inv;
    FilledIs(n);
    FilledIsInv(Filled(n), n);
    EnterNewChat(Filled(n), n, n);
  }

  lemma {:induction false} FillUp(n: nat)
    requires n <= MAX_LOCKS
    ensures Inv(EMPTY) && After(EMPTY, Entering(n)) == Filled(n)
  {
    hide Step, Inv, After, Filled;
    EmptyIsFine();
    AfterNone(EMPTY);
    if n == 0 {
      assert Filled(0) == EMPTY && Entering(0) == [] by { NothingFilled(); }
    } else {
      FillUp(n - 1);
      FillOneMore(n - 1);
      var last := Enter(n - 1, n - 1);
      assert Entering(n) == Entering(n - 1) + [last];
      AfterConcat(EMPTY, Entering(n - 1), [last]);
      AfterCons(Filled(n - 1), last, []);
      assert [last] + [] == [last];
      AfterNone(Filled(n));
    }
  }

  lemma NothingFilled()
    ensures Filled(0) == EMPTY && Entering(0) == []
  {
  }

  /** After 64 chats a task waits for the lock of the first, which is released. */
  lemma WaitingInTheGap(full: System)
    requires IsFilled(full, MAX_LOCKS)
    ensures Inv(full)
    ensures var s := After(full, [Enter(64, 0), Release(0)]);
            InHandover(s, 0) && Evicted(s, 64) == Some(0) && s.locks[0].chat == 0
  {
    hide After;
    FilledIsInv(full, MAX_LOCKS);
    AfterTwo(full, Enter(64, 0), Release(0));
    var waiting := Step(full, Enter(64, 0));
    assert 0 in full.pool.lockOf && full.pool.lockOf[0] == 0;
    assert [] + [64] == [64] && full.locks[0] == Lock(0, Some(0), []);
    assert waiting.pool == full.pool && waiting.locks == full.locks[0 := Lock(0, Some(0), [64])];
    var s := Step(waiting, Release(0));
    assert s.pool == full.pool && s.locks[0] == Lock(0, None, [64]);
    assert s.pool.order[0] == 0;
  }

  /** From the start: 64 chats enter, a task waits for the first, whose holder releases it, a 65th chat
      enters and evicts the lock, the first chat enters again, and the waiter resumes. */
  lemma TwoHoldersAreReachable()
    ensures Inv(EMPTY)
    ensures !OneHolderPerChat(After(EMPTY, Entering(64) + [Enter(64, 0), Release(0)]
                                           + [Enter(65, 64), Enter(66, 0), Resume(0)]))
  {
    hide Step, After, Filled, OneHolderPerChat, Evicted, InHandover;
    FillUp(64);
    FilledIs(64);
    WaitingInTheGap(Filled(64));
    var gap, rest := [Enter(64, 0), Release(0)], [Enter(65, 64), Enter(66, 0), Resume(0)];
    var s := After(Filled(64), gap);
    AfterConcat(EMPTY, Entering(64), gap);
    AfterConcat(EMPTY, Entering(64) + gap, rest);
    assert Evicted(s, 64).Some?;
    EvictedIsIdle(s, 64);
    EvictionInTheGapGivesTwoHolders(s, 0, Enter(65, 64), 66);
  }

  // ----- the size of the pool

  /** The pooled locks of the first n chats. */
  function PooledLocks(pool: Pool, n: nat): set<nat>
    requires pool.Valid() && n <= |pool.order|
  {
    set i | 0 <= i < n :: pool.lockOf[pool.order[i]]
  }

  lemma {:induction false} AsManyLocksAsChats(pool: Pool, n: nat)
    requires pool.Valid() && n <= |pool.order|
    ensures |PooledLocks(pool, n)| == n
  {
    if n > 0 {
      AsManyLocksAsChats(pool, n - 1);
      assert PooledLocks(pool, n) == PooledLocks(pool, n - 1) + {pool.lockOf[pool.order[n - 1]]};
      assert pool.lockOf[pool.order[n - 1]] !in PooledLocks(pool, n - 1);
    }
  }

  lemma SubsetIsSmaller(a: set<nat>, b: set<nat>)
    requires a <= b
    ensures |a| <= |b|
  {
    assert b == a + (b - a);
  }

  function Max(a: nat, b: nat): nat {
    if a < b then b else a
  }

  lemma PoolGrowsOnlyWhenAllAreHeld(sys: System, e: Event)
    requires Inv(sys)
    ensures |Step(sys, e).pool.order| <= Max(|sys.pool.order|, Max(MAX_LOCKS, |Held(sys)| + 1))
  {
    if e.Enter? || e.Peek? {
      var n := |sys.pool.order|;
      var i := FirstIdle(sys.pool, Held(sys), 0);
      if e.chat !in sys.pool.lockOf && i == n {
        AsManyLocksAsChats(sys.pool, n);
        SubsetIsSmaller(PooledLocks(sys.pool, n), Held(sys));
      }
    }
  }

  /** The largest number of locks held at once, in the states of a run. */
  ghost function PeakHeld(sys: System, events: seq<Event>): nat
    requires Inv(sys)
    decreases |events|
  {
    if events == [] then |Held(sys)| else
      StepKeepsInv(sys, events[0]);
      Max(|Held(sys)|, PeakHeld(Step(sys, events[0]), events[1..]))
  }

  /** The pool never outgrows its limit, or the peak of held locks and one more. */
  lemma {:induction false} PoolIsBounded(sys: System, events: seq<Event>)
    requires Inv(sys)
    ensures |After(sys, events).pool.order| <= Max(|sys.pool.order|, Max(MAX_LOCKS, PeakHeld(sys, events) + 1))
    decreases |events|
  {
    if events != [] {
      StepKeepsInv(sys, events[0]);
      PoolGrowsOnlyWhenAllAreHeld(sys, events[0]);
      PoolIsBounded(Step(sys, events[0]), events[1..]);
    }
  }
}

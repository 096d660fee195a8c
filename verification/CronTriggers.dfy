/** Names of scheduler triggers (src/kai/cron.py, lines 107 to 228) and the cancel command that looks
    for them (src/kai/bot.py, lines 1588 to 1596). */
module CronTriggers {
  import opened Options

  /** One entry of a daily schedule: a time of day, an entry that is logged and skipped, or one that raises. */
  datatype Time = Valid | Invalid | Raising

  datatype Schedule = Once(runAt: int) | Interval | Daily(times: seq<Time>) | Unknown | Unreadable

  datatype Job = Job(id: int, schedule: Schedule)

  /** The names in the job queue; other parts of the program may register triggers without a name. */
  type Queue = seq<Maybe<string>>

  // ----- names

  function Digits(n: nat): (s: string)
    ensures s != "" && forall i | 0 <= i < |s| :: '0' <= s[i] <= '9'
  {
    if n < 10 then [('0' as int + n) as char] else Digits(n / 10) + [('0' as int + n % 10) as char]
  }

  /** The decimal form of an integer in a format string. */
  function Str(n: int): string {
    if n < 0 then "-" + Digits(-n) else Digits(n)
  }

  function JobName(id: int): string {
    "cron_" + Str(id)
  }

  function SuffixedName(id: int, i: nat): string {
    JobName(id) + "_" + Str(i)
  }

  /** `name == prefix or name.startswith(f"{prefix}_")` */
  predicate InFamily(name: string, id: int) {
    name == JobName(id) || JobName(id) + "_" <= name
  }

  /** A name that the registration of the job can produce. */
  ghost predicate IsNameOf(name: string, id: int) {
    name == JobName(id) || exists i: nat :: name == SuffixedName(id, i)
  }

  lemma {:induction false} DigitsAreInjective(m: nat, n: nat)
    requires Digits(m) == Digits(n)
    ensures m == n
  {
    var s := Digits(m);
    assert s[|s| - 1] == ('0' as int + m % 10) as char == ('0' as int + n % 10) as char;
    if m >= 10 && n >= 10 {
      assert Digits(m / 10) == s[..|s| - 1] == Digits(n / 10);
      DigitsAreInjective(m / 10, n / 10);
    }
  }

  lemma StrSign(n: int)
    ensures '_' !in Str(n) && (Str(n)[..1] == "-" <==> n < 0)
  {
    var d := Digits(if n < 0 then -n else n);
    assert forall i | 0 <= i < |d| :: d[i] != '_' && d[i] != '-';
    if n < 0 {
      assert Str(n)[..1] == "-";
    } else {
      assert Str(n)[..1][0] == d[0];
    }
  }

  lemma StrIsInjective(m: int, n: int)
    requires Str(m) == Str(n)
    ensures m == n
  {
    StrSign(m);
    StrSign(n);
    if m < 0 {
      assert Str(m)[1..] == Digits(-m) && Str(n)[1..] == Digits(-n);
      DigitsAreInjective(-m, -n);
    } else {
      DigitsAreInjective(m, n);
    }
  }

  /** A text up to its first mark. */
  function Head(s: string): string {
    if s == "" || s[0] == '_' then "" else [s[0]] + Head(s[1..])
  }

  lemma {:induction false} HeadOf(a: string, rest: string)
    requires '_' !in a
    ensures Head(a) == a && Head(a + "_" + rest) == a
  {
    if a != "" {
      HeadOf(a[1..], rest);
      assert a == [a[0]] + a[1..];
      assert (a + "_" + rest)[1..] == a[1..] + "_" + rest;
    }
  }

  lemma NameIsInFamily(name: string, id: int)
    requires IsNameOf(name, id)
    ensures InFamily(name, id)
  {
    if name != JobName(id) {
      var i: nat :| name == SuffixedName(id, i);
      assert JobName(id) + "_" <= name;
    }
  }

  lemma HeadOfFamily(name: string, id: int)
    requires InFamily(name, id)
    ensures |name| >= 5 && Head(name[5..]) == Str(id)
  {
    hide Str;
    StrSign(id);
    var s := Str(id);
    if name == JobName(id) {
      assert name[5..] == s;
      HeadOf(s, "");
    } else {
      var rest := name[|JobName(id) + "_"|..];
      assert name == "cron_" + s + "_" + rest && name[5..] == s + "_" + rest;
      HeadOf(s, rest);
    }
  }

  /** The families of distinct jobs are disjoint, and a job's names are in its own family. */
  lemma FamiliesAreDisjoint(name: string, a: int, b: int)
    requires IsNameOf(name, a)
    ensures InFamily(name, b) <==> a == b
  {
    hide Str, InFamily;
    NameIsInFamily(name, a);
    HeadOfFamily(name, a);
    if InFamily(name, b) {
      HeadOfFamily(name, b);
      StrIsInjective(a, b);
    }
  }

  // ----- registration

  /** The first entry that raises, or the number of entries. */
  function FirstRaising(times: seq<Time>): (r: nat)
    ensures r <= |times| && (r < |times| ==> times[r].Raising?)
    ensures forall k | 0 <= k < r :: !times[k].Raising?
  {
    if times == [] || times[0].Raising? then 0 else 1 + FirstRaising(times[1..])
  }

  /** The triggers of the first n entries; a schedule with one entry gets the plain name. */
  function DailyTriggers(id: int, times: seq<Time>, n: nat): Queue
    requires n <= |times|
  {
    if n == 0 then [] else
      DailyTriggers(id, times, n - 1)
      + (if times[n - 1].Valid? then [Some(if |times| > 1 then SuffixedName(id, n - 1) else JobName(id))] else [])
  }

  lemma DailyNone(id: int, times: seq<Time>)
    ensures DailyTriggers(id, times, 0) == []
  {
  }

  lemma DailySnoc(id: int, times: seq<Time>, n: nat)
    requires n < |times|
    ensures DailyTriggers(id, times, n + 1) == DailyTriggers(id, times, n)
            + (if times[n].Valid? then [Some(if |times| > 1 then SuffixedName(id, n) else JobName(id))] else [])
  {
  }

  /** What `_register_job` registers, in order. An entry that raises ends the registration of the job,
      with the triggers before it in the queue. */
  function TriggersOf(job: Job): Queue {
    match job.schedule
    case Once(_) => [Some(JobName(job.id))]
    case Interval => [Some(JobName(job.id))]
    case Daily(times) => DailyTriggers(job.id, times, FirstRaising(times))
    case Unknown => []
    case Unreadable => []
  }

  predicate HasFamily(queue: Queue, id: int) {
    exists i :: 0 <= i < |queue| && queue[i].Some? && InFamily(queue[i].value, id)
  }

  predicate IsExpired(job: Job, now: int) {
    job.schedule.Once? && job.schedule.runAt <= now
  }

  /** Whether the registration of the job ends in an exception. */
  predicate Raises(job: Job) {
    job.schedule.Unreadable? || (job.schedule.Daily? && FirstRaising(job.schedule.times) < |job.schedule.times|)
  }

  /** What one pass does with a job: it is registered already, deactivated, logged as failed, or counted. */
  datatype Fate = Present | Expired | Failed | Counted

  function FateOf(registered: Queue, job: Job, now: int): Fate {
    if HasFamily(registered, job.id) then Present
    else if IsExpired(job, now) then Expired
    else if Raises(job) then Failed
    else Counted
  }

  /** What one pass over the jobs adds to a queue; whether a job is registered is looked up in the queue
      as it was at the beginning. */
  function Added(registered: Queue, jobs: seq<Job>, now: int): Queue {
    if jobs == [] then [] else
      var job := jobs[|jobs| - 1];
      Added(registered, jobs[..|jobs| - 1], now)
      + (if HasFamily(registered, job.id) || IsExpired(job, now) then [] else TriggersOf(job))
  }

  function WithFate(registered: Queue, jobs: seq<Job>, now: int, fate: Fate): seq<int> {
    if jobs == [] then [] else
      var job := jobs[|jobs| - 1];
      WithFate(registered, jobs[..|jobs| - 1], now, fate)
      + (if FateOf(registered, job, now) == fate then [job.id] else [])
  }

  // ----- what a pass does, without naming its parts

  /** The value of a row of digits. */
  function Value(s: string): int {
    if s == "" then 0 else 10 * Value(s[..|s| - 1]) + (s[|s| - 1] as int - '0' as int)
  }

  /** The decimal form has the value of the number. */
  lemma {:induction false} DigitsHaveTheValue(n: nat)
    ensures Value(Digits(n)) == n
  {
    if n >= 10 {
      DigitsHaveTheValue(n / 10);
      assert Digits(n)[..|Digits(n)| - 1] == Digits(n / 10);
    } else {
      assert Digits(n)[..0] == "";
    }
  }

  lemma NamesAsWritten()
    ensures JobName(13) == "cron_13" && SuffixedName(13, 0) == "cron_13_0" && SuffixedName(13, 1) == "cron_13_1"
    ensures JobName(-7) == "cron_-7"
  {
  }

  ghost predicate IsNew(queue: Queue, job: Job) {
    forall name: string | Some(name) in queue ::
      name != "cron_" + Str(job.id) && !("cron_" + Str(job.id) + "_" <= name)
  }

  ghost predicate IsDue(job: Job, now: int) {
    match job.schedule
    case Once(runAt) => runAt <= now
    case _ => false
  }

  /** The names under which a job is to be found. Daily entries count up to the first that raises, and
      carry their place only where there is more than one. */
  ghost predicate IsOwnName(job: Job, name: string) {
    match job.schedule
    case Once(_) => name == "cron_" + Str(job.id)
    case Interval => name == "cron_" + Str(job.id)
    case Daily(times) =>
      exists i: nat :: i < |times| && times[i] == Valid && Raising !in times[..i]
                       && name == "cron_" + Str(job.id) + (if |times| == 1 then "" else "_" + Str(i))
    case _ => false
  }

  ghost predicate CanBeRead(job: Job) {
    match job.schedule
    case Daily(times) => Raising !in times
    case Unreadable => false
    case _ => true
  }

  /** Exactly the names of the new jobs that are not due are added, exactly the new jobs that are due are
      deactivated, and those are counted that are added and can be read to the end. */
  ghost predicate PassIsRight(before: Queue, jobs: seq<Job>, now: int, after: Queue, count: nat, deactivated: seq<int>)
  {
    && (forall name: string :: Some(name) in after
          <==> Some(name) in before || exists job ::
                 job in jobs && IsNew(before, job) && !IsDue(job, now) && IsOwnName(job, name))
    && (forall id :: id in deactivated
          <==> exists job :: job in jobs && job.id == id && IsNew(before, job) && IsDue(job, now))
    && count == |set i | 0 <= i < |jobs| && IsNew(before, jobs[i]) && !IsDue(jobs[i], now) && CanBeRead(jobs[i])|
  }

  lemma NewExactly(queue: Queue, job: Job)
    ensures IsNew(queue, job) <==> !HasFamily(queue, job.id)
  {
    hide Str;
    if HasFamily(queue, job.id) {
      var i :| 0 <= i < |queue| && queue[i].Some? && InFamily(queue[i].value, job.id);
      assert queue[i] in queue;
    }
  }

  lemma RaisesExactly(job: Job)
    ensures Raises(job) <==> !CanBeRead(job)
  {
    if job.schedule.Daily? && Raising in job.schedule.times {
      var i :| 0 <= i < |job.schedule.times| && job.schedule.times[i] == Raising;
    }
  }

  lemma {:induction false} DailyNamesExactly(id: int, times: seq<Time>, n: nat, name: string)
    requires n <= FirstRaising(times)
    ensures Some(name) in DailyTriggers(id, times, n) <==>
      exists i: nat :: i < n && times[i] == Valid
                       && name == "cron_" + Str(id) + (if |times| == 1 then "" else "_" + Str(i))
  {
    hide Str, FirstRaising;
    if n > 0 {
      DailyNamesExactly(id, times, n - 1, name);
      assert SuffixedName(id, n - 1) == "cron_" + Str(id) + ("_" + Str(n - 1));
      assert JobName(id) == "cron_" + Str(id) + "";
    }
  }

  lemma TriggersExactly(job: Job, name: string)
    ensures Some(name) in TriggersOf(job) <==> IsOwnName(job, name)
  {
    hide Str, DailyTriggers;
    if job.schedule.Daily? {
      var times := job.schedule.times;
      var r := FirstRaising(times);
      DailyNamesExactly(job.id, times, r, name);
      forall i: nat | i < |times|
        ensures Raising !in times[..i] <==> i <= r
      {
        if i > r {
          assert times[..i][r] == Raising;
        }
      }
    }
  }

  lemma {:induction false} AddedExactly(registered: Queue, jobs: seq<Job>, now: int, name: string)
    ensures Some(name) in Added(registered, jobs, now) <==>
      exists job :: job in jobs && IsNew(registered, job) && !IsDue(job, now) && IsOwnName(job, name)
  {
    hide IsNew, HasFamily, IsOwnName, TriggersOf;
    if jobs != [] {
      var front, job := jobs[..|jobs| - 1], jobs[|jobs| - 1];
      AddedExactly(registered, front, now, name);
      NewExactly(registered, job);
      TriggersExactly(job, name);
      assert forall j :: j in jobs <==> j in front || j == job;
    }
  }

  lemma {:induction false} DeactivatedExactly(registered: Queue, jobs: seq<Job>, now: int, id: int)
    ensures id in WithFate(registered, jobs, now, Expired) <==>
      exists job :: job in jobs && job.id == id && IsNew(registered, job) && IsDue(job, now)
  {
    hide IsNew, HasFamily, Raises;
    if jobs != [] {
      var front, job := jobs[..|jobs| - 1], jobs[|jobs| - 1];
      DeactivatedExactly(registered, front, now, id);
      NewExactly(registered, job);
      assert forall j :: j in jobs <==> j in front || j == job;
    }
  }

  ghost function CountedAt(registered: Queue, jobs: seq<Job>, now: int): set<int> {
    set i | 0 <= i < |jobs| && IsNew(registered, jobs[i]) && !IsDue(jobs[i], now) && CanBeRead(jobs[i])
  }

  lemma {:induction false} CountedExactly(registered: Queue, jobs: seq<Job>, now: int)
    ensures |WithFate(registered, jobs, now, Counted)| == |CountedAt(registered, jobs, now)|
  {
    hide IsNew, HasFamily, Raises, CanBeRead;
    if jobs != [] {
      var n := |jobs| - 1;
      CountedExactly(registered, jobs[..n], now);
      NewExactly(registered, jobs[n]);
      RaisesExactly(jobs[n]);
      var before := CountedAt(registered, jobs[..n], now);
      assert CountedAt(registered, jobs, now)
          == if FateOf(registered, jobs[n], now) == Counted then before + {n} else before;
    }
  }

  lemma PassExactly(registered: Queue, jobs: seq<Job>, now: int)
    ensures PassIsRight(registered, jobs, now, registered + Added(registered, jobs, now),
                        |WithFate(registered, jobs, now, Counted)|, WithFate(registered, jobs, now, Expired))
  {
    hide IsNew, IsDue, IsOwnName, CanBeRead, Added, WithFate;
    forall name: string
      ensures Some(name) in Added(registered, jobs, now) <==>
        exists job :: job in jobs && IsNew(registered, job) && !IsDue(job, now) && IsOwnName(job, name)
    {
      AddedExactly(registered, jobs, now, name);
    }
    forall id
      ensures id in WithFate(registered, jobs, now, Expired) <==>
        exists job :: job in jobs && job.id == id && IsNew(registered, job) && IsDue(job, now)
    {
      DeactivatedExactly(registered, jobs, now, id);
    }
    CountedExactly(registered, jobs, now);
  }

  class Scheduler {
    var queue: Queue

    constructor ()
      ensures queue == []
    {
      queue := [];
    }

    method RegisterJob(job: Job) returns (raised: bool)
      modifies this
      ensures queue == old(queue) + TriggersOf(job)
      ensures raised <==> Raises(job)
    {
      hide JobName, SuffixedName, DailyTriggers;
      raised := false;
      match job.schedule {
        case Once(_) => queue := queue + [Some(JobName(job.id))];
        case Interval => queue := queue + [Some(JobName(job.id))];
        case Unknown =>
        case Unreadable => raised := true;
        case Daily(times) => raised := RegisterDaily(job.id, times);
      }
    }

    method RegisterDaily(id: int, times: seq<Time>) returns (raised: bool)
      modifies this
      ensures queue == old(queue) + DailyTriggers(id, times, FirstRaising(times))
      ensures raised <==> FirstRaising(times) < |times|
    {
      hide JobName, SuffixedName, DailyTriggers;
      ghost var was := queue;
      DailyNone(id, times);
      for i := 0 to |times|
        invariant i <= FirstRaising(times) && queue == was + DailyTriggers(id, times, i)
      {
        if times[i].Raising? {
          return true;
        }
        DailySnoc(id, times, i);
        if times[i].Valid? {
          queue := queue + [Some(if |times| > 1 then SuffixedName(id, i) else JobName(id))];
        }
      }
      return false;
    }

    /** Returns the number of newly registered jobs. A job whose registration raises is not counted, but
        the triggers before the exception stay. */
    method RegisterNewJobs(jobs: seq<Job>, now: int) returns (count: nat, deactivated: seq<int>)
      modifies this
      ensures queue == old(queue) + Added(old(queue), jobs, now)
      ensures deactivated == WithFate(old(queue), jobs, now, Expired)
      ensures count == |WithFate(old(queue), jobs, now, Counted)|
      ensures PassIsRight(old(queue), jobs, now, queue, count, deactivated)
    {
      hide HasFamily, TriggersOf, Raises, PassIsRight;
      PassExactly(queue, jobs, now);
      var registered := queue;
      count, deactivated := 0, [];
      assert jobs[..|jobs|] == jobs;
      for i := 0 to |jobs|
        invariant queue == registered + Added(registered, jobs[..i], now)
        invariant deactivated == WithFate(registered, jobs[..i], now, Expired)
        invariant count == |WithFate(registered, jobs[..i], now, Counted)|
      {
        var job := jobs[i];
        assert jobs[..i + 1][..i] == jobs[..i];
        if HasFamily(registered, job.id) {
          continue;
        }
        if IsExpired(job, now) {
          deactivated := deactivated + [job.id];
          continue;
        }
        var raised := RegisterJob(job);
        if !raised {
          count := count + 1;
        }
      }
    }

    /** `register_job_by_id`: registers what the database holds under an id, without a look at the queue. */
    method RegisterById(job: Maybe<Job>) returns (found: bool, raised: bool)
      modifies this
      ensures found == job.Some? && (raised <==> job.Some? && Raises(job.value))
      ensures queue == old(queue) + (if job.Some? then TriggersOf(job.value) else [])
    {
      hide TriggersOf, Raises;
      if job.None? {
        return false, false;
      }
      raised := RegisterJob(job.value);
      found := true;
    }

    method Cancel(id: int)
      modifies this
      ensures queue == Cancelled(old(queue), id)
    {
      hide InFamily;
      var kept: Queue := [];
      assert queue[..|queue|] == queue;
      for i := 0 to |queue|
        invariant queue == old(queue) && kept == Cancelled(queue[..i], id)
      {
        assert queue[..i + 1][..i] == queue[..i];
        if !(queue[i].Some? && InFamily(queue[i].value, id)) {
          kept := kept + [queue[i]];
        }
      }
      queue := kept;
    }
  }

  /** The queue without the triggers that the family test of the job matches. */
  function Cancelled(queue: Queue, id: int): Queue {
    if queue == [] then [] else
      var last := queue[|queue| - 1];
      Cancelled(queue[..|queue| - 1], id) + (if last.Some? && InFamily(last.value, id) then [] else [last])
  }

  // ----- no duplicates, and cancelling

  ghost predicate NoDuplicates(queue: Queue) {
    forall i, j | 0 <= i < j < |queue| && queue[i].Some? :: queue[i] != queue[j]
  }

  ghost predicate UniqueIds(jobs: seq<Job>) {
    forall i, j | 0 <= i < j < |jobs| :: jobs[i].id != jobs[j].id
  }

  lemma {:induction false} DailyTriggersAreNames(id: int, times: seq<Time>, n: nat)
    requires n <= |times|
    ensures forall t | t in DailyTriggers(id, times, n) ::
              t.Some? && (if |times| > 1 then exists i: nat :: i < n && t.value == SuffixedName(id, i)
                  else t.value == JobName(id))
  {
    hide JobName, SuffixedName;
    if n > 0 {
      DailyTriggersAreNames(id, times, n - 1);
    }
  }

  lemma TriggersAreNames(job: Job)
    ensures forall t | t in TriggersOf(job) :: t.Some? && IsNameOf(t.value, job.id)
  {
    hide JobName, SuffixedName;
    if job.schedule.Daily? {
      DailyTriggersAreNames(job.id, job.schedule.times, FirstRaising(job.schedule.times));
    }
  }

  lemma SuffixedNamesDiffer(id: int, i: nat, j: nat)
    requires SuffixedName(id, i) == SuffixedName(id, j)
    ensures i == j
  {
    hide Str;
    var n := |JobName(id) + "_"|;
    assert SuffixedName(id, i)[n..] == Str(i) && SuffixedName(id, j)[n..] == Str(j);
    StrIsInjective(i, j);
  }

  ghost predicate Apart(a: Queue, b: Queue) {
    forall i, j | 0 <= i < |a| && 0 <= j < |b| && b[j].Some? :: a[i] != b[j]
  }

  lemma JoinApart(a: Queue, b: Queue)
    requires NoDuplicates(a) && NoDuplicates(b) && Apart(a, b)
    ensures NoDuplicates(a + b)
  {
    var all := a + b;
    forall i, j | 0 <= i < j < |all| && all[i].Some?
      ensures all[i] != all[j]
    {
      if i < |a| && |a| <= j {
        assert a[i] == all[i] && b[j - |a|] == all[j];
      }
    }
  }

  lemma {:induction false} DailyTriggersDiffer(id: int, times: seq<Time>, n: nat)
    requires n <= |times|
    ensures NoDuplicates(DailyTriggers(id, times, n))
  {
    hide JobName, SuffixedName;
    if n > 0 {
      DailyTriggersDiffer(id, times, n - 1);
      DailyTriggersAreNames(id, times, n - 1);
      var before := DailyTriggers(id, times, n - 1);
      if |times| > 1 {
        var name := Some(SuffixedName(id, n - 1));
        forall k | 0 <= k < |before|
          ensures before[k] != name
        {
          assert before[k] in before;
          var i: nat :| i < n - 1 && before[k].value == SuffixedName(id, i);
          if SuffixedName(id, i) == SuffixedName(id, n - 1) {
            SuffixedNamesDiffer(id, i, n - 1);
          }
        }
        JoinApart(before, [name]);
      } else {
        assert n == 1;
        DailyNone(id, times);
      }
    }
  }

  lemma TriggersDiffer(job: Job)
    ensures NoDuplicates(TriggersOf(job))
  {
    if job.schedule.Daily? {
      DailyTriggersDiffer(job.id, job.schedule.times, FirstRaising(job.schedule.times));
    }
  }

  /** Every added trigger is a name of a job that had none in the queue. */
  lemma {:induction false} AddedAreNames(registered: Queue, jobs: seq<Job>, now: int)
    ensures forall t | t in Added(registered, jobs, now) ::
              t.Some? && exists j | j in jobs :: IsNameOf(t.value, j.id) && !HasFamily(registered, j.id)
  {
    hide HasFamily, IsNameOf;
    if jobs != [] {
      var front, job := jobs[..|jobs| - 1], jobs[|jobs| - 1];
      AddedAreNames(registered, front, now);
      TriggersAreNames(job);
      assert job in jobs && forall j | j in front :: j in jobs;
    }
  }

  lemma AddedIsApart(registered: Queue, front: seq<Job>, now: int, job: Job)
    requires forall j | j in front :: j.id != job.id
    ensures Apart(Added(registered, front, now), TriggersOf(job))
  {
    hide HasFamily, IsNameOf, InFamily, TriggersOf, Added;
    AddedAreNames(registered, front, now);
    TriggersAreNames(job);
    var a, b := Added(registered, front, now), TriggersOf(job);
    forall i, k | 0 <= i < |a| && 0 <= k < |b|
      ensures a[i] != b[k]
    {
      assert a[i] in a && b[k] in b;
      var j :| j in front && IsNameOf(a[i].value, j.id);
      FamiliesAreDisjoint(a[i].value, j.id, job.id);
      FamiliesAreDisjoint(b[k].value, job.id, job.id);
    }
  }

  lemma {:induction false} AddedDiffer(registered: Queue, jobs: seq<Job>, now: int)
    requires UniqueIds(jobs)
    ensures NoDuplicates(Added(registered, jobs, now))
  {
    hide HasFamily, NoDuplicates, Apart, TriggersOf;
    if jobs == [] {
      NoneDiffer();
    } else {
      var front, job := jobs[..|jobs| - 1], jobs[|jobs| - 1];
      AddedDiffer(registered, front, now);
      if !HasFamily(registered, job.id) && !IsExpired(job, now) {
        TriggersDiffer(job);
        AddedIsApart(registered, front, now, job);
        JoinApart(Added(registered, front, now), TriggersOf(job));
      } else {
        assert Added(registered, jobs, now) == Added(registered, front, now);
      }
    }
  }

  lemma NoneDiffer()
    ensures NoDuplicates([])
  {
  }

  lemma AddedIsNew(queue: Queue, jobs: seq<Job>, now: int)
    ensures Apart(queue, Added(queue, jobs, now))
  {
    hide IsNameOf, InFamily, Added;
    var added := Added(queue, jobs, now);
    AddedAreNames(queue, jobs, now);
    forall i, j | 0 <= i < |queue| && 0 <= j < |added|
      ensures queue[i] != added[j]
    {
      assert added[j] in added;
      var job :| job in jobs && IsNameOf(added[j].value, job.id) && !HasFamily(queue, job.id);
      FamiliesAreDisjoint(added[j].value, job.id, job.id);
    }
  }

  /** However often the jobs of the database are registered, no trigger is in the queue twice. */
  lemma RegistrationNeverDuplicates(queue: Queue, jobs: seq<Job>, now: int)
    requires NoDuplicates(queue) && UniqueIds(jobs)
    ensures NoDuplicates(queue + Added(queue, jobs, now))
  {
    hide *;
    AddedDiffer(queue, jobs, now);
    AddedIsNew(queue, jobs, now);
    JoinApart(queue, Added(queue, jobs, now));
  }

  lemma {:induction false} CancelKeepsApart(queue: Queue, id: int, rest: Queue)
    requires Apart(queue, rest)
    ensures Apart(Cancelled(queue, id), rest)
  {
    hide InFamily;
    if queue != [] {
      var front, last := queue[..|queue| - 1], queue[|queue| - 1];
      assert Apart(front, rest);
      CancelKeepsApart(front, id, rest);
    }
  }

  lemma {:induction false} CancelNeverDuplicates(queue: Queue, id: int)
    requires NoDuplicates(queue)
    ensures NoDuplicates(Cancelled(queue, id))
  {
    hide InFamily;
    if queue != [] {
      var front, last := queue[..|queue| - 1], queue[|queue| - 1];
      CancelNeverDuplicates(front, id);
      CancelKeepsApart(front, id, [last]);
      JoinApart(Cancelled(front, id), [last]);
    }
  }

  /** No trigger of the job is in the queue. */
  ghost predicate AddsNew(queue: Queue, job: Job) {
    forall t | t in TriggersOf(job) :: t !in queue
  }

  /** Registering a job by its id duplicates no trigger if and only if none of its triggers is in the queue. */
  lemma ByIdDuplicatesNothingExactlyIf(queue: Queue, job: Job)
    requires NoDuplicates(queue)
    ensures NoDuplicates(queue + TriggersOf(job)) <==> AddsNew(queue, job)
  {
    hide TriggersOf, NoDuplicates, Apart, IsNameOf;
    var added := TriggersOf(job);
    TriggersDiffer(job);
    TriggersAreNames(job);
    if AddsNew(queue, job) {
      NewIsApart(queue, added);
      JoinApart(queue, added);
    } else {
      var t :| t in added && t in queue;
      TwiceIsDuplicate(queue, added, t);
    }
  }

  lemma NewIsApart(queue: Queue, added: Queue)
    requires forall t | t in added :: t !in queue
    ensures Apart(queue, added)
  {
    forall i, j | 0 <= i < |queue| && 0 <= j < |added|
      ensures queue[i] != added[j]
    {
      assert queue[i] in queue && added[j] in added;
    }
  }

  lemma TwiceIsDuplicate(a: Queue, b: Queue, t: Maybe<string>)
    requires t in a && t in b && t.Some?
    ensures !NoDuplicates(a + b)
  {
    var i :| 0 <= i < |a| && a[i] == t;
    var j :| 0 <= j < |b| && b[j] == t;
    assert (a + b)[i] == (a + b)[|a| + j] == t;
  }

  /** A job without a trigger in the queue, a new one for instance, adds nothing twice. */
  lemma NewJobAddsNew(queue: Queue, job: Job)
    requires !HasFamily(queue, job.id)
    ensures AddsNew(queue, job)
  {
    hide TriggersOf, IsNameOf, InFamily;
    TriggersAreNames(job);
    forall t | t in TriggersOf(job)
      ensures t !in queue
    {
      FamiliesAreDisjoint(t.value, job.id, job.id);
    }
  }

  /** A pass over the active jobs of the database, the registration of one job by its id, a cancel
      command, or a trigger that leaves the queue. */
  datatype Step = Pass(jobs: seq<Job>, now: int) | ById(job: Job) | Cancel(id: int) | Leave(at: nat)

  function Run(queue: Queue, steps: seq<Step>): Queue {
    if steps == [] then queue else
      var before := Run(queue, steps[..|steps| - 1]);
      match steps[|steps| - 1]
      case Pass(jobs, now) => before + Added(before, jobs, now)
      case ById(job) => before + TriggersOf(job)
      case Cancel(id) => Cancelled(before, id)
      case Leave(at) => if at < |before| then before[..at] + before[at + 1..] else before
  }

  /** Every registration by id finds none of its triggers in the queue. */
  ghost predicate AddsNewById(queue: Queue, steps: seq<Step>) {
    steps != [] ==>
      var front, last := steps[..|steps| - 1], steps[|steps| - 1];
      AddsNewById(queue, front) && (last.ById? ==> AddsNew(Run(queue, front), last.job))
  }

  /** A run duplicates no trigger at any point, however often the jobs are registered, cancelled and
      registered again, if and only if no registration by id finds one of its triggers in the queue. */
  lemma {:induction false} RunNeverDuplicates(queue: Queue, steps: seq<Step>)
    requires NoDuplicates(queue)
    requires forall s | s in steps && s.Pass? :: UniqueIds(s.jobs)
    ensures (forall i | 0 <= i <= |steps| :: NoDuplicates(Run(queue, steps[..i]))) <==> AddsNewById(queue, steps)
  {
    hide Run, AddsNew, NoDuplicates, UniqueIds;
    if steps == [] {
      assert Run(queue, []) == queue by { NoStepTaken(queue); }
    } else {
      var n := |steps| - 1;
      var front, last := steps[..n], steps[n];
      RunNeverDuplicates(queue, front);
      assert forall i | 0 <= i <= n :: steps[..i] == front[..i];
      assert steps[..n + 1] == steps && front[..n] == front && last in steps;
      if forall i | 0 <= i <= n :: NoDuplicates(Run(queue, front[..i])) {
        assert NoDuplicates(Run(queue, front[..n]));
        StepDuplicatesExactlyIf(queue, steps);
      } else {
        var i :| 0 <= i <= n && !NoDuplicates(Run(queue, front[..i]));
        assert !NoDuplicates(Run(queue, steps[..i]));
      }
    }
  }

  lemma NoStepTaken(queue: Queue)
    ensures Run(queue, []) == queue
  {
  }

  lemma StepDuplicatesExactlyIf(queue: Queue, steps: seq<Step>)
    requires steps != [] && NoDuplicates(Run(queue, steps[..|steps| - 1]))
    requires steps[|steps| - 1].Pass? ==> UniqueIds(steps[|steps| - 1].jobs)
    ensures var before, last := Run(queue, steps[..|steps| - 1]), steps[|steps| - 1];
            NoDuplicates(Run(queue, steps)) <==> (last.ById? ==> AddsNew(before, last.job))
  {
    hide Added, Cancelled, AddsNew, TriggersOf, UniqueIds, NoDuplicates;
    var before := Run(queue, steps[..|steps| - 1]);
    match steps[|steps| - 1] {
      case Pass(jobs, now) =>
        RegistrationNeverDuplicates(before, jobs, now);
      case ById(job) =>
        ByIdDuplicatesNothingExactlyIf(before, job);
      case Cancel(id) =>
        CancelNeverDuplicates(before, id);
      case Leave(at) =>
        LeavingNeverDuplicates(before, at);
    }
  }

  lemma LeavingNeverDuplicates(queue: Queue, at: nat)
    requires NoDuplicates(queue)
    ensures NoDuplicates(if at < |queue| then queue[..at] + queue[at + 1..] else queue)
  {
  }

  lemma {:induction false} AddedFamilies(registered: Queue, jobs: seq<Job>, now: int, job: Job, t: Maybe<string>)
    requires job in jobs && !HasFamily(registered, job.id) && !IsExpired(job, now) && t in TriggersOf(job)
    ensures t in Added(registered, jobs, now)
  {
    hide HasFamily, TriggersOf;
    if job != jobs[|jobs| - 1] {
      AddedFamilies(registered, jobs[..|jobs| - 1], now, job, t);
    }
  }

  /** A second pass at the same time adds nothing. */
  lemma {:induction false} SecondPassAddsNothing(queue: Queue, all: seq<Job>, jobs: seq<Job>, now: int)
    requires forall j | j in jobs :: j in all
    ensures Added(queue + Added(queue, all, now), jobs, now) == []
  {
    hide HasFamily, TriggersOf;
    if jobs != [] {
      var front, job := jobs[..|jobs| - 1], jobs[|jobs| - 1];
      SecondPassAddsNothing(queue, all, front, now);
      var once := queue + Added(queue, all, now);
      assert job in jobs;
      if !HasFamily(once, job.id) && !IsExpired(job, now) && TriggersOf(job) != [] {
        RegisteredHasFamily(queue, all, now, job);
        assert false;
      }
    }
  }

  lemma RegisteredHasFamily(queue: Queue, jobs: seq<Job>, now: int, job: Job)
    requires job in jobs && !IsExpired(job, now) && TriggersOf(job) != []
    ensures HasFamily(queue + Added(queue, jobs, now), job.id)
  {
    hide TriggersOf, InFamily;
    var once := queue + Added(queue, jobs, now);
    if HasFamily(queue, job.id) {
      var i :| 0 <= i < |queue| && queue[i].Some? && InFamily(queue[i].value, job.id);
      assert once[i] == queue[i];
    } else {
      var t := TriggersOf(job)[0];
      TriggersAreNames(job);
      assert t in TriggersOf(job);
      FamiliesAreDisjoint(t.value, job.id, job.id);
      AddedFamilies(queue, jobs, now, job, t);
      var i :| 0 <= i < |Added(queue, jobs, now)| && Added(queue, jobs, now)[i] == t;
      assert once[|queue| + i] == t;
    }
  }

  /** Cancelling a job removes all its triggers and none of any other job. */
  lemma CancelledSnoc(queue: Queue, t: Maybe<string>, id: int)
    ensures Cancelled(queue + [t], id)
         == Cancelled(queue, id) + (if t.Some? && InFamily(t.value, id) then [] else [t])
    ensures Cancelled([], id) == []
  {
    hide InFamily;
    assert (queue + [t])[..|queue|] == queue;
  }

  /** Cancelling goes over the triggers one by one and keeps their order. */
  lemma {:induction false} CancelledExactly(before: Queue, t: Maybe<string>, after: Queue, id: int)
    ensures Cancelled(before + [t] + after, id)
         == Cancelled(before, id) + (if t.Some? && InFamily(t.value, id) then [] else [t]) + Cancelled(after, id)
    ensures Cancelled([], id) == []
  {
    hide InFamily, Cancelled;
    CancelledSnoc(before, t, id);
    if after == [] {
      assert before + [t] + after == before + [t];
      CancelledSnoc(before, t, id);
    } else {
      var front, last := after[..|after| - 1], after[|after| - 1];
      assert before + [t] + after == (before + [t] + front) + [last] && after == front + [last];
      CancelledExactly(before, t, front, id);
      CancelledSnoc(before + [t] + front, last, id);
      CancelledSnoc(front, last, id);
    }
  }

  lemma {:induction false} CancelRemovesExactlyTheJob(queue: Queue, id: int, name: string, owner: int)
    requires IsNameOf(name, owner)
    ensures Some(name) in Cancelled(queue, id) <==> Some(name) in queue && owner != id
    ensures multiset(Cancelled(queue, id))[Some(name)] == if owner == id then 0 else multiset(queue)[Some(name)]
  {
    hide IsNameOf, InFamily;
    FamiliesAreDisjoint(name, owner, id);
    if queue != [] {
      var front, last := queue[..|queue| - 1], queue[|queue| - 1];
      assert queue == front + [last];
      CancelRemovesExactlyTheJob(front, id, name, owner);
    }
  }
}

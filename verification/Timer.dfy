/**
  The timers of an event loop: a list in order of creation, and a cached bound
  on the time at which the first of them is due.
 */
module Timer {

  /** An unset cached deadline. */
  const UNSET: int := -1

  datatype Timer = Timer(id: nat, deadline: int, frequency: nat, active: bool)

  /** What happened to a timer: when it was created, for when, and when it fired. */
  datatype Log = Log(born: nat, wait: nat, frequency: nat, fired: seq<nat>)

  /** When a timer with this history is due next. */
  function Due(l: Log): int {
    if l.fired == [] then l.born + l.wait else l.fired[|l.fired| - 1] + l.frequency
  }

  /** Never early, at least a period apart, once only if it has no period. */
  ghost predicate LogOk(l: Log) {
    && (l.fired != [] ==> l.fired[0] >= l.born + l.wait)
    && (forall i {:trigger GapAt(l, i)} :: 0 < i < |l.fired| ==> GapAt(l, i))
    && (l.frequency == 0 ==> |l.fired| <= 1)
  }

  ghost predicate GapAt(l: Log, i: int)
    requires 0 < i < |l.fired|
  {
    l.fired[i] >= l.fired[i - 1] + l.frequency
  }

  lemma FiredLog(l: Log, now: nat)
    requires LogOk(l) && Due(l) <= now && (l.frequency == 0 ==> l.fired == [])
    ensures LogOk(l.(fired := l.fired + [now]))
    ensures Due(l.(fired := l.fired + [now])) == now + l.frequency
  {
    var m := l.(fired := l.fired + [now]);
    forall i {:trigger GapAt(m, i)} | 0 < i < |m.fired| ensures GapAt(m, i) {
      if i < |l.fired| { assert GapAt(l, i); }
    }
  }

  /** A history with one more firing, or without. */
  function Again(l: Log, fired: bool, now: nat): Log {
    if fired then l.(fired := l.fired + [now]) else l
  }

  /** From position i on stand the timers still to be looked at. */
  ghost predicate Ahead(was: seq<Timer>, ts: seq<Timer>, n: nat, i: nat) {
    n <= |was| && i + (|was| - n) <= |ts| && ts[i..i + (|was| - n)] == was[n..]
  }

  /** Behind those stand only timers created meanwhile. */
  ghost predicate NewBehind(was: seq<Timer>, logged: map<nat, Log>, ts: seq<Timer>, n: nat, i: nat) {
    forall k {:trigger ts[k]} :: 0 <= i + (|was| - n) <= k < |ts| ==> ts[k].id !in logged
  }

  /** What follows the timer at position i is what was to follow. */
  lemma TailOf(ts: seq<Timer>, was: seq<Timer>, n: nat, m: nat, i: nat)
    requires n <= |was| && m == (if n < |was| then n + 1 else n) && i < |ts|
    requires i + (|was| - n) <= |ts| && ts[i..i + (|was| - n)] == was[n..]
    ensures i + 1 + (|was| - m) <= |ts| && ts[i + 1..i + 1 + (|was| - m)] == was[m..]
  {
    var a := ts[i..i + (|was| - n)];
    if n < |was| {
      assert ts[i + 1..i + 1 + (|was| - m)] == a[1..] && was[n..][1..] == was[m..];
    }
  }

  lemma TailKept(ts: seq<Timer>, now: seq<Timer>, mid: seq<Timer>, i: nat, left: nat)
    requires i < |ts| && i + 1 + left <= |ts|
    requires var kept := ts[..i] + mid + ts[i + 1..]; |kept| <= |now| && now[..|kept|] == kept
    ensures i + |mid| + left <= |now| && now[i + |mid|..i + |mid| + left] == ts[i + 1..i + 1 + left]
  {
    var kept := ts[..i] + mid + ts[i + 1..];
    var j := i + |mid|;
    var x, y := now[j..j + left], ts[i + 1..i + 1 + left];
    forall k | 0 <= k < left ensures x[k] == y[k] {
      KeptAt(ts, now, mid, i, j + k);
    }
    assert |x| == |y| == left;
  }

  /** What stands where once the timer at position i was replaced. */
  lemma KeptAt(ts: seq<Timer>, now: seq<Timer>, mid: seq<Timer>, i: nat, p: nat)
    requires i < |ts| && i + |mid| <= p < |ts| - 1 + |mid|
    requires var kept := ts[..i] + mid + ts[i + 1..]; |kept| <= |now| && now[..|kept|] == kept
    ensures p < |now| && now[p] == ts[p + 1 - |mid|]
  {
    var kept := ts[..i] + mid + ts[i + 1..];
    assert now[p] == now[..|kept|][p] == kept[p];
  }

  /** A request a callback makes for a new timer. */
  datatype Addition = Addition(wait: nat, frequency: nat)

  class EventLoop {
    var currtime: nat
    var deadline: int
    var timers: seq<Timer>
    var nextId: nat
    ghost var logs: map<nat, Log>

    /** A listed timer is the one its history describes. */
    ghost predicate TimerAt(i: int)
      requires 0 <= i < |timers|
      reads this`timers, this`logs, this`nextId
    {
      var t := timers[i];
      && t.id in logs && t.id < nextId
      && logs[t.id].frequency == t.frequency && t.deadline == Due(logs[t.id])
      && (t.frequency == 0 ==> logs[t.id].fired == [])
    }

    /** The cached deadline is unset or no later than any active timer's deadline. */
    ghost predicate BoundAt(i: int)
      requires 0 <= i < |timers|
      reads this`timers, this`deadline
    {
      deadline != UNSET && timers[i].active ==> deadline <= timers[i].deadline
    }

    ghost predicate LogAt(id: nat)
      reads this`logs, this`nextId
    {
      id in logs ==> LogOk(logs[id]) && id < nextId
    }

    ghost predicate IdsDiffer(i: int, j: int)
      requires 0 <= i < |timers| && 0 <= j < |timers|
      reads this`timers
    {
      timers[i].id != timers[j].id
    }

    ghost predicate Valid()
      reads this
    {
      && deadline >= UNSET
      && (forall i {:trigger TimerAt(i)} :: 0 <= i < |timers| ==> TimerAt(i))
      && (forall i {:trigger BoundAt(i)} :: 0 <= i < |timers| ==> BoundAt(i))
      && (forall id {:trigger LogAt(id)} :: LogAt(id))
      && (forall i, j {:trigger IdsDiffer(i, j)} :: 0 <= i < j < |timers| ==> IdsDiffer(i, j))
    }

    constructor (now: nat)
      ensures Valid() && currtime == now && timers == [] && logs == map[]
    {
      currtime, deadline, timers, nextId, logs := now, UNSET, [], 0, map[];
    }

    /** Time does not run backwards. */
    method SetTime(now: nat)
      requires Valid() && now >= currtime
      modifies this`currtime
      ensures Valid() && currtime == now
    {
      currtime := now;
      assert forall i {:trigger TimerAt(i)} :: 0 <= i < |timers| ==> old(TimerAt(i));
      assert forall i {:trigger BoundAt(i)} :: 0 <= i < |timers| ==> old(BoundAt(i));
      assert forall id {:trigger LogAt(id)} :: old(LogAt(id));
      assert forall i, j {:trigger IdsDiffer(i, j)} :: 0 <= i < j < |timers| ==> old(IdsDiffer(i, j));
    }

    /** A new timer goes to the end of the list and may lower the cached deadline. */
    method Add(wait: nat, frequency: nat) returns (id: nat)
      requires Valid()
      modifies this`timers, this`deadline, this`nextId, this`logs
      ensures Valid() && id == old(nextId) && id !in old(logs)
      ensures logs == old(logs)[id := Log(currtime, wait, frequency, [])]
      ensures timers == old(timers) + [Timer(id, currtime + wait, frequency, true)]
    {
      assert LogAt(nextId);
      id := nextId;
      var timer := Timer(id, currtime + wait, frequency, true);
      if deadline != UNSET && timer.deadline <= deadline {
        deadline := timer.deadline;
      }
      timers := timers + [timer];
      nextId := nextId + 1;
      logs := logs[id := Log(currtime, wait, frequency, [])];
      forall i {:trigger TimerAt(i)} | 0 <= i < |timers| ensures TimerAt(i) {
        if i < |old(timers)| { assert old(TimerAt(i)); }
      }
      forall i {:trigger BoundAt(i)} | 0 <= i < |timers| ensures BoundAt(i) {
        if i < |old(timers)| { assert old(BoundAt(i)); }
      }
      forall k {:trigger LogAt(k)} ensures LogAt(k) {
        assert old(LogAt(k));
      }
      forall i, j {:trigger IdsDiffer(i, j)} | 0 <= i < j < |timers| ensures IdsDiffer(i, j) {
        assert old(TimerAt(i));
        if j < |old(timers)| { assert old(IdsDiffer(i, j)); }
      }
    }

    /** Take a timer off the list; its history stays. */
    method Destroy(i: nat)
      requires Valid() && i < |timers|
      modifies this`timers
      ensures Valid() && timers == old(timers)[..i] + old(timers)[i + 1..]
    {
      timers := timers[..i] + timers[i + 1..];
      forall k {:trigger TimerAt(k)} | 0 <= k < |timers| ensures TimerAt(k) {
        assert old(TimerAt(if k < i then k else k + 1));
      }
      forall k {:trigger BoundAt(k)} | 0 <= k < |timers| ensures BoundAt(k) {
        assert old(BoundAt(if k < i then k else k + 1));
      }
      forall j, k {:trigger IdsDiffer(j, k)} | 0 <= j < k < |timers| ensures IdsDiffer(j, k) {
        assert old(IdsDiffer(if j < i then j else j + 1, if k < i then k else k + 1));
      }
      assert forall id {:trigger LogAt(id)} :: old(LogAt(id));
    }

    /** The time to sleep until: unset only when no timer is active, and never past a due timer. */
    method NextTimer() returns (when: int)
      requires Valid()
      modifies this`deadline
      ensures Valid() && when == deadline
      ensures forall i {:trigger timers[i]} :: 0 <= i < |timers| && timers[i].active ==>
              when != UNSET && when <= timers[i].deadline
      ensures old(deadline) != UNSET ==> when == old(deadline)
      ensures old(deadline) == UNSET && when != UNSET ==>
        exists i {:trigger timers[i]} :: 0 <= i < |timers| && timers[i].active && when == timers[i].deadline
    {
      if deadline == UNSET {
        var n := 0;
        while n < |timers|
          invariant 0 <= n <= |timers| && deadline >= UNSET
          invariant forall i {:trigger timers[i]} :: 0 <= i < n && timers[i].active ==>
                    deadline != UNSET && deadline <= timers[i].deadline
          invariant deadline != UNSET ==>
            exists i {:trigger timers[i]} :: 0 <= i < n && timers[i].active && deadline == timers[i].deadline
        {
          assert TimerAt(n);
          if timers[n].active && (timers[n].deadline < deadline || deadline == UNSET) {
            deadline := timers[n].deadline;
          }
          n := n + 1;
        }
      }
      when := deadline;
      if old(deadline) != UNSET {
        forall i {:trigger timers[i]} | 0 <= i < |timers| && timers[i].active ensures when <= timers[i].deadline {
          assert old(BoundAt(i));
        }
      }
    }

    /** What a callback may do: create timers, which go to the end of the list. */
    method Callback(adds: seq<Addition>)
      requires Valid()
      modifies this`timers, this`deadline, this`nextId, this`logs
      ensures Valid() && Grown(old(timers), old(logs)) && |timers| == |old(timers)| + |adds|
    {
      var k := 0;
      while k < |adds|
        invariant k <= |adds| && Valid() && Grown(old(timers), old(logs)) && |timers| == |old(timers)| + k
      {
        var id := Add(adds[k].wait, adds[k].frequency);
        k := k + 1;
      }
    }

    /** Timers were added behind the others, with new identities; old histories are unchanged. */
    ghost predicate Grown(was: seq<Timer>, logged: map<nat, Log>)
      reads this`timers, this`logs
    {
      && |timers| >= |was| && timers[..|was|] == was
      && (forall i {:trigger timers[i]} :: |was| <= i < |timers| ==> timers[i].id !in logged)
      && (forall id {:trigger id in logged} :: id in logged ==> id in logs && logs[id] == logged[id])
    }

    /** A periodic timer that fired is due again one period from now. */
    method Reschedule(i: nat)
      requires Valid() && i < |timers| && timers[i].active && timers[i].deadline <= currtime && timers[i].frequency > 0
      modifies this`timers, this`deadline, this`logs
      ensures Valid() && timers == old(timers)[i := old(timers)[i].(deadline := currtime + old(timers)[i].frequency)]
      ensures Fired(old(logs), old(timers)[i].id)
    {
      assert TimerAt(i) && LogAt(timers[i].id);
      IdUnique(i);
      var t := timers[i];
      FiredLog(logs[t.id], currtime);
      deadline := UNSET;
      timers := timers[i := t.(deadline := currtime + t.frequency)];
      logs := logs[t.id := logs[t.id].(fired := logs[t.id].fired + [currtime])];
      forall k {:trigger TimerAt(k)} | 0 <= k < |timers| ensures TimerAt(k) { assert old(TimerAt(k)); }
      forall j, k {:trigger IdsDiffer(j, k)} | 0 <= j < k < |timers|
        ensures IdsDiffer(j, k) { assert old(IdsDiffer(j, k)); }
      forall id {:trigger LogAt(id)} ensures LogAt(id) { assert old(LogAt(id)); }
    }

    /** Other listed timers have other identities. */
    lemma IdUnique(i: nat)
      requires Valid() && i < |timers|
      ensures forall k {:trigger timers[k]} :: 0 <= k < |timers| && k != i ==> timers[k].id != timers[i].id
    {
      forall k {:trigger timers[k]} | 0 <= k < |timers| && k != i ensures timers[k].id != timers[i].id {
        assert if k < i then IdsDiffer(k, i) else IdsDiffer(i, k);
      }
    }

    /** One history got one more firing, now; the others are unchanged. */
    ghost predicate Fired(logged: map<nat, Log>, id: nat)
      reads this`logs, this`currtime
    {
      && id in logged && id in logs
      && logs == logged[id := logged[id].(fired := logged[id].fired + [currtime])]
    }

    /** A one-shot timer that fired is gone. */
    method Finish(i: nat)
      requires Valid() && i < |timers| && timers[i].active && timers[i].deadline <= currtime && timers[i].frequency == 0
      modifies this`timers, this`deadline, this`logs
      ensures Valid() && timers == old(timers)[..i] + old(timers)[i + 1..]
      ensures Fired(old(logs), old(timers)[i].id)
    {
      assert TimerAt(i) && LogAt(timers[i].id);
      IdUnique(i);
      var id := timers[i].id;
      FiredLog(logs[id], currtime);
      deadline := UNSET;
      Forget(i, id);
    }

    /** A timer leaves the list with one more firing in its history. */
    method Forget(i: nat, id: nat)
      requires Valid() && i < |timers| && timers[i].id == id && deadline == UNSET
      requires id in logs && LogOk(logs[id].(fired := logs[id].fired + [currtime]))
      modifies this`timers, this`logs
      ensures Valid() && timers == old(timers)[..i] + old(timers)[i + 1..] && Fired(old(logs), id)
    {
      IdUnique(i);
      Destroy(i);
      logs := logs[id := logs[id].(fired := logs[id].fired + [currtime])];
      forall k {:trigger TimerAt(k)} | 0 <= k < |timers| ensures TimerAt(k) {
        assert timers[k] == old(timers)[if k < i then k else k + 1];
        assert old(TimerAt(if k < i then k else k + 1));
      }
      forall j, k {:trigger IdsDiffer(j, k)} | 0 <= j < k < |timers| ensures IdsDiffer(j, k) {
        assert old(IdsDiffer(if j < i then j else j + 1, if k < i then k else k + 1));
      }
      forall k {:trigger BoundAt(k)} | 0 <= k < |timers| ensures BoundAt(k) { }
      forall k {:trigger LogAt(k)} ensures LogAt(k) { assert old(LogAt(k)); }
    }

    predicate DueNow(t: Timer)
      reads this`currtime
    {
      t.active && t.deadline <= currtime
    }

    /** Call a due timer: what its callback adds comes behind, then it is rescheduled or removed. */
    method Fire(i: nat, adds: seq<Addition>)
      requires Valid() && i < |timers| && DueNow(timers[i])
      modifies this`timers, this`deadline, this`nextId, this`logs
      ensures Valid() && FiredIn(old(timers), old(logs), i)
      ensures |timers| == |old(timers)| + |adds| - (if old(timers)[i].frequency > 0 then 0 else 1)
    {
      ghost var was, logged := timers, logs;
      assert TimerAt(i);
      Callback(adds);
      assert timers[..|was|][i] == was[i] == timers[i];
      if timers[i].frequency > 0 {
        Reschedule(i);
      } else {
        Finish(i);
      }
    }

    /** After the timer at position i fired: it alone has one more firing, and new timers follow the others. */
    ghost predicate FiredIn(was: seq<Timer>, logged: map<nat, Log>, i: nat)
      requires i < |was|
      reads this`timers, this`logs, this`currtime
    {
      var kept := was[..i] + (if was[i].frequency > 0 then [was[i].(deadline := currtime + was[i].frequency)] else [])
        + was[i + 1..];
      && |timers| >= |kept| && timers[..|kept|] == kept
      && (forall k {:trigger timers[k]} :: |kept| <= k < |timers| ==> timers[k].id !in logged)
      && was[i].id in logged
      && (forall id {:trigger id in logged} :: id in logged ==>
        id in logs && logs[id] == Again(logged[id], id == was[i].id, currtime))
    }

    /** A timer with this identity is among the first ones, and due. */
    ghost predicate WasDue(ts: seq<Timer>, n: nat, id: nat)
      requires n <= |ts|
      reads this`currtime
    {
      exists k {:trigger ts[k]} :: 0 <= k < n && ts[k].id == id && DueNow(ts[k])
    }

    /** The first n timers of the list as it was have been looked at, and position i is reached. */
    ghost predicate RunTo(was: seq<Timer>, logged: map<nat, Log>, n: nat, i: nat)
      reads this`timers, this`logs, this`currtime
    {
      Ahead(was, timers, n, i) && NewBehind(was, logged, timers, n, i) && Logged(was, logged, logs, n)
    }

    ghost predicate Logged(was: seq<Timer>, logged: map<nat, Log>, ls: map<nat, Log>, n: nat)
      reads this`currtime
    {
      && n <= |was|
      && (forall id {:trigger id in logged} :: id in logged ==>
        id in ls && ls[id] == Again(logged[id], WasDue(was, n, id), currtime))
    }

    /** A timer of the list has had its turn. */
    lemma StepRun(was: seq<Timer>, logged: map<nat, Log>, n: nat, i: nat, ts: seq<Timer>, ls: map<nat, Log>, due: bool)
      requires i < |ts| && Ahead(was, ts, n, i) && NewBehind(was, logged, ts, n, i) && Logged(was, logged, ls, n)
      requires forall a, b {:trigger was[a], was[b]} :: 0 <= a < b < |was| ==> was[a].id != was[b].id
      requires due == DueNow(ts[i])
      requires if due then FiredIn(ts, ls, i) else timers == ts && logs == ls
      ensures RunTo(was, logged, if n < |was| then n + 1 else n, if due && ts[i].frequency == 0 then i else i + 1)
    {
      StepTail(was, logged, n, i, ts, ls, due);
      StepLogs(was, logged, n, i, ts, ls, due);
    }

    lemma StepTail(was: seq<Timer>, logged: map<nat, Log>, n: nat, i: nat, ts: seq<Timer>, ls: map<nat, Log>, due: bool)
      requires i < |ts| && Ahead(was, ts, n, i) && NewBehind(was, logged, ts, n, i)
      requires forall id {:trigger id in logged} :: id in logged ==> id in ls
      requires if due then FiredIn(ts, ls, i) else timers == ts
      ensures var m, j := if n < |was| then n + 1 else n, if due && ts[i].frequency == 0 then i else i + 1;
              Ahead(was, timers, m, j) && NewBehind(was, logged, timers, m, j)
    {
      hide WasDue;
      var m := if n < |was| then n + 1 else n;
      var left := |was| - m;
      TailOf(ts, was, n, m, i);
      if due {
        var mid := if ts[i].frequency > 0 then [ts[i].(deadline := currtime + ts[i].frequency)] else [];
        TailKept(ts, timers, mid, i, left);
        var kept := ts[..i] + mid + ts[i + 1..];
        forall k {:trigger timers[k]} | i + |mid| + left <= k < |timers| ensures timers[k].id !in logged {
          if k < |kept| {
            KeptAt(ts, timers, mid, i, k);
          }
        }
      }
    }

    lemma StepLogs(was: seq<Timer>, logged: map<nat, Log>, n: nat, i: nat, ts: seq<Timer>, ls: map<nat, Log>, due: bool)
      requires i < |ts| && Ahead(was, ts, n, i) && NewBehind(was, logged, ts, n, i) && Logged(was, logged, ls, n)
      requires forall a, b {:trigger was[a], was[b]} :: 0 <= a < b < |was| ==> was[a].id != was[b].id
      requires due == DueNow(ts[i])
      requires if due then FiredIn(ts, ls, i) else logs == ls
      ensures Logged(was, logged, logs, if n < |was| then n + 1 else n)
    {
      hide WasDue;
      var m := if n < |was| then n + 1 else n;
      if n < |was| {
        assert ts[i] == ts[i..i + (|was| - n)][0] == was[n];
      }
      forall id {:trigger id in logged} | id in logged
        ensures id in logs && logs[id] == Again(logged[id], WasDue(was, m, id), currtime)
      {
        WasDueStep(was, n, m, id);
      }
    }

    lemma WasDueStep(was: seq<Timer>, n: nat, m: nat, id: nat)
      requires n <= m <= |was| && m <= n + 1
      requires forall a, b {:trigger was[a], was[b]} :: 0 <= a < b < |was| ==> was[a].id != was[b].id
      ensures WasDue(was, m, id) <==> WasDue(was, n, id) || (m > n && was[n].id == id && DueNow(was[n]))
      ensures m > n && was[n].id == id ==> !WasDue(was, n, id)
    {
    }

    /** What becomes of the first n timers: due ones are rescheduled or gone, the others stay as they are. */
    ghost function AfterRun(was: seq<Timer>, n: nat): seq<Timer>
      requires n <= |was|
      reads this`currtime
    {
      if n == 0 then []
      else
        var t := was[n - 1];
        AfterRun(was, n - 1) +
        if !DueNow(t) then [t] else if t.frequency > 0 then [t.(deadline := currtime + t.frequency)] else []
    }

    /** The list begins with what became of the first n timers, and what is behind the old timers is new. */
    ghost predicate ListTo(was: seq<Timer>, logged: map<nat, Log>, n: nat, i: nat, ts: seq<Timer>)
      reads this`currtime
    {
      && n <= |was| && |AfterRun(was, n)| <= i && (n < |was| ==> i == |AfterRun(was, n)|)
      && AfterRun(was, n) <= ts
      && NewBehind(was, logged, ts, n, |AfterRun(was, n)|)
    }

    lemma StepList(was: seq<Timer>, logged: map<nat, Log>, n: nat, i: nat, ts: seq<Timer>, ls: map<nat, Log>, due: bool)
      requires i < |ts| && Ahead(was, ts, n, i) && NewBehind(was, logged, ts, n, i) && ListTo(was, logged, n, i, ts)
      requires forall id {:trigger id in logged} :: id in logged ==> id in ls
      requires due == DueNow(ts[i])
      requires if due then FiredIn(ts, ls, i) else timers == ts
      ensures var n', i' := if n < |was| then n + 1 else n, if due && ts[i].frequency == 0 then i else i + 1;
              ListTo(was, logged, n', i', timers)
    {
      assert n <= |was|;
      hide *;
      if n < |was| {
        StepOld(was, logged, n, i, ts, ls, due);
      } else {
        StepNew(was, logged, n, i, ts, ls, due);
      }
    }

    /** What is left of the timer that was looked at, between what was before and behind it. */
    lemma Remaining(ts: seq<Timer>, ls: map<nat, Log>, i: nat, due: bool) returns (mid: seq<Timer>)
      requires i < |ts| && due == DueNow(ts[i])
      requires if due then FiredIn(ts, ls, i) else timers == ts
      ensures mid ==
              if !due then [ts[i]]
              else if ts[i].frequency > 0 then [ts[i].(deadline := currtime + ts[i].frequency)]
              else []
      ensures ts[..i] + mid + ts[i + 1..] <= timers
      ensures ts[..i] == timers[..i] && ts[..i] + mid == timers[..i + |mid|]
    {
      mid :=
        if !due then [ts[i]]
        else if ts[i].frequency > 0 then [ts[i].(deadline := currtime + ts[i].frequency)]
        else [];
      var kept := ts[..i] + mid + ts[i + 1..];
      assert kept <= timers by { if !due { assert kept == ts; } }
      assert ts[..i] == kept[..i] == timers[..i];
      assert ts[..i] + mid == kept[..i + |mid|] == timers[..i + |mid|];
    }

    lemma StepOld(was: seq<Timer>, logged: map<nat, Log>, n: nat, i: nat, ts: seq<Timer>, ls: map<nat, Log>, due: bool)
      requires i < |ts| && Ahead(was, ts, n, i) && NewBehind(was, logged, ts, n, i) && ListTo(was, logged, n, i, ts)
      requires forall id {:trigger id in logged} :: id in logged ==> id in ls
      requires due == DueNow(ts[i]) && n < |was|
      requires if due then FiredIn(ts, ls, i) else timers == ts
      ensures ListTo(was, logged, n + 1, if due && ts[i].frequency == 0 then i else i + 1, timers)
    {
      hide WasDue, FiredIn;
      var mid := Remaining(ts, ls, i, due);
      assert ts[i] == ts[i..i + (|was| - n)][0] == was[n];
      assert AfterRun(was, n) == ts[..i];
      assert AfterRun(was, n + 1) == ts[..i] + mid == timers[..i + |mid|];
      StepTail(was, logged, n, i, ts, ls, due);
    }

    lemma StepNew(was: seq<Timer>, logged: map<nat, Log>, n: nat, i: nat, ts: seq<Timer>, ls: map<nat, Log>, due: bool)
      requires i < |ts| && NewBehind(was, logged, ts, n, i) && ListTo(was, logged, n, i, ts)
      requires forall id {:trigger id in logged} :: id in logged ==> id in ls
      requires due == DueNow(ts[i]) && n == |was|
      requires if due then FiredIn(ts, ls, i) else timers == ts
      ensures ListTo(was, logged, n, if due && ts[i].frequency == 0 then i else i + 1, timers)
    {
      hide WasDue, AfterRun;
      var size := |AfterRun(was, n)|;
      var mid := Remaining(ts, ls, i, due);
      var kept := ts[..i] + mid + ts[i + 1..];
      assert AfterRun(was, n) == ts[..size] == ts[..i][..size] == timers[..i][..size] == timers[..size];
      forall k {:trigger timers[k]} | size <= k < |timers| ensures timers[k].id !in logged {
        if i + |mid| <= k < |kept| {
          KeptAt(ts, timers, mid, i, k);
        } else if k < |kept| {
          assert timers[k] == kept[k];
        }
      }
    }

    /**
      Run the due timers. The next timer is remembered before a callback runs,
      so what the callback of the last one adds is left for the next run. The
      k-th callback adds script[k]. Each old timer that was due fired once, now,
      and was rescheduled or removed; the others are as they were.
     */
    method RunTimers(script: seq<seq<Addition>>)
      requires Valid()
      modifies this`timers, this`deadline, this`nextId, this`logs
      ensures Valid()
      ensures forall id {:trigger id in old(logs)} :: id in old(logs) ==>
              id in logs && logs[id] == Again(old(logs)[id], WasDue(old(timers), |old(timers)|, id), currtime)
      ensures var kept := AfterRun(old(timers), |old(timers)|);
              kept <= timers && forall k {:trigger timers[k]} :: |kept| <= k < |timers| ==> timers[k].id !in old(logs)
    {
      hide WasDue, AfterRun;
      ghost var was, logged := timers, logs;
      NoneDue(was, logged);
      var i, calls: nat := 0, 0;
      var more := timers != [];
      ghost var n := 0;
      while more
        invariant Valid() && n <= |was| && RunTo(was, logged, n, i) && ListTo(was, logged, n, i, timers)
        invariant if more then i < |timers| else n == |was|
        decreases more, if calls < |script| then |script| - calls else 0, |timers| - i
      {
        var last := i + 1 == |timers|;
        ghost var ts, ls := timers, logs;
        var due := timers[i].active && timers[i].deadline <= currtime;
        var once := timers[i].frequency == 0;
        assert due == DueNow(timers[i]);
        if due {
          Fire(i, if calls < |script| then script[calls] else []);
          calls := calls + 1;
        }
        StepRun(was, logged, n, i, ts, ls, due);
        StepList(was, logged, n, i, ts, ls, due);
        n := if n < |was| then n + 1 else n;
        if !(due && once) {
          i := i + 1;
        }
        more := !last;
      }
    }

    lemma NoneDue(was: seq<Timer>, logged: map<nat, Log>)
      requires Valid() && was == timers && logged == logs
      ensures RunTo(was, logged, 0, 0) && ListTo(was, logged, 0, 0, timers)
      ensures forall a, b {:trigger was[a], was[b]} :: 0 <= a < b < |was| ==> was[a].id != was[b].id
    {
      assert timers[0..0 + (|was| - 0)] == was[0..];
      forall a, b {:trigger was[a], was[b]} | 0 <= a < b < |was|
        ensures was[a].id != was[b].id { assert IdsDiffer(a, b); }
    }
  }
}

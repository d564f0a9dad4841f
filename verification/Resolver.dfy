/**
  The resolver's table of outstanding requests: identifiers, sends, timeouts,
  and the one answer each query gets. Clock, random numbers, deliveries and
  replies are inputs.
 */
module Resolver {
  import Rotation
  import opened Sequences

  datatype Kind = A | AAAA | PTR | Other

  type Query = nat

  /** An outstanding request; handle stands for its address. */
  datatype Request = Request(handle: nat, id: nat, kind: Kind, query: Query, retries: int, sends: nat,
                             sentat: nat, timeout: nat, lastns: nat, encodable: bool, v6: bool, born: nat)

  datatype Result = Success | NxDomain | Invalid | Timeout

  /** A message is offered to the servers that seem to work, and then to the others. */
  datatype Round = Working | TimedOutBefore

  const IDS: nat := 0x1_0000
  const AR_TTL: nat := 600

  /** Three timeouts of 4, 8 and 16 seconds, counted by the retries left; at most one send for each. */
  predicate RequestOk(r: Request, now: nat) {
    && 1 <= r.retries <= 3 && r.id < IDS && r.sentat <= now
    && r.timeout == (if r.retries == 3 then 4 else if r.retries == 2 then 8 else 16)
    && r.sentat >= r.born + (if r.retries == 3 then 0 else if r.retries == 2 then 4 else 12)
    && r.sends <= 4 - r.retries
  }

  /** Identifiers in use are different, except that requests that could not be sent share 0. */
  predicate Apart(a: Request, b: Request) {
    a.handle != b.handle && (a.id == b.id ==> a.id == 0)
  }

  ghost predicate Table(rs: seq<Request>, now: nat, next: nat) {
    && (forall i {:trigger rs[i]} :: 0 <= i < |rs| ==> RequestOk(rs[i], now) && rs[i].handle < next)
    && (forall i, j {:trigger ApartAt(rs, i, j)} :: 0 <= i < j < |rs| ==> ApartAt(rs, i, j))
  }

  ghost predicate ApartAt(rs: seq<Request>, i: int, j: int)
    requires 0 <= i < j < |rs|
  {
    Apart(rs[i], rs[j])
  }

  function Deadline(r: Request): nat {
    r.sentat + r.timeout
  }

  predicate Overdue(r: Request, now: nat) {
    now >= Deadline(r)
  }

  /** One of the first requests is overdue with a retry left. */
  ghost predicate Retried(rs: seq<Request>, n: nat, now: nat)
    requires n <= |rs|
  {
    exists j {:trigger rs[j]} :: 0 <= j < n && Overdue(rs[j], now) && rs[j].retries > 1
  }

  /** n requests of the table as it was have been looked at, i of them are kept; the others are still to come. */
  ghost predicate SweptTo(rs: seq<Request>, was: seq<Request>, n: nat, i: nat, nextTime: nat, now: nat) {
    && n <= |was| && i <= |rs| && rs[i..] == was[n..]
    && (forall j {:trigger rs[j]} :: 0 <= j < i ==> now < Deadline(rs[j]))
    && (if Retried(was, n, now) then 0 < nextTime <= now && DueBy(rs, i, now + 16)
        else if i == 0 then nextTime == 0
        else nextTime > now && forall j {:trigger rs[j]} :: 0 <= j < i ==> nextTime <= Deadline(rs[j]))
  }

  ghost predicate DueBy(rs: seq<Request>, i: nat, time: nat) {
    exists j {:trigger rs[j]} :: 0 <= j < i && j < |rs| && Deadline(rs[j]) <= time
  }

  lemma SweepStart(rs: seq<Request>, now: nat)
    ensures SweptTo(rs, rs, 0, 0, 0, now)
  {
  }

  lemma OverdueIs(r: Request, now: nat)
    ensures Overdue(r, now) <==> now >= Deadline(r)
  {
  }

  lemma SweepStep(rs: seq<Request>, was: seq<Request>, n: nat, i: nat, nextTime: nat, now: nat, next: nat)
    requires SweptTo(rs, was, n, i, nextTime, now) && i < |rs| && Table(rs, now, next)
    ensures n < |was| && rs[i] == was[n] && Deadline(was[n]) > 0
    ensures now >= Deadline(rs[i]) && rs[i].retries <= 1 ==> rs[i].sends <= 3 && now >= rs[i].born + 28
  {
    assert rs[i..][0] == was[n..][0];
  }

  lemma SweepAnswered(rs: seq<Request>, was: seq<Request>, n: nat, i: nat, nextTime: nat, now: nat)
    requires SweptTo(rs, was, n, i, nextTime, now) && i < |rs| && n < |was| && rs[i] == was[n] && was[n].retries <= 1
    ensures SweptTo(Removed(rs, i), was, n + 1, i, nextTime, now)
  {
    var r := Removed(rs, i);
    assert r[i..] == rs[i..][1..] && was[n + 1..] == was[n..][1..];
    assert forall j {:trigger r[j]} :: 0 <= j < i ==> r[j] == rs[j];
    assert Retried(was, n + 1, now) <==> Retried(was, n, now);
    if DueBy(rs, i, now + 16) {
      var j :| 0 <= j < i && Deadline(rs[j]) <= now + 16;
      assert Deadline(r[j]) <= now + 16;
    }
  }

  lemma SweepKept(before: seq<Request>, after: seq<Request>, was: seq<Request>, n: nat, i: nat, nextTime: nat, now: nat)
    requires SweptTo(before, was, n, i, nextTime, now) && i < |before| && n < |was| && before[i] == was[n]
    requires |after| == |before| && after == before[i := after[i]] && now < Deadline(after[i])
    requires if Overdue(was[n], now) then was[n].retries > 1 && Deadline(after[i]) <= now + 16
             else after[i] == before[i]
    requires Deadline(was[n]) > 0
    ensures var t := Deadline(before[i]);
            SweptTo(after, was, n + 1, i + 1, if nextTime == 0 || t < nextTime then t else nextTime, now)
  {
    var t := Deadline(before[i]);
    assert after[i + 1..] == before[i..][1..] && was[n + 1..] == was[n..][1..];
    assert Retried(was, n + 1, now) <==> Retried(was, n, now) || Overdue(was[n], now);
    if Retried(was, n + 1, now) {
      if Overdue(was[n], now) {
        assert Deadline(after[i]) <= now + 16;
      } else {
        var j :| 0 <= j < i && Deadline(before[j]) <= now + 16;
        assert Deadline(after[j]) <= now + 16;
      }
    }
  }

  lemma SweepEnd(rs: seq<Request>, was: seq<Request>, n: nat, nextTime: nat, now: nat)
    requires SweptTo(rs, was, n, |rs|, nextTime, now)
    ensures n == |was| && forall j {:trigger rs[j]} :: 0 <= j < |rs| ==> !Overdue(rs[j], now)
    ensures var next := if nextTime > now then nextTime else now + AR_TTL;
            && ((forall j {:trigger rs[j]} :: 0 <= j < |rs| ==> next <= Deadline(rs[j])) <==> !Retried(was, |was|, now))
            && (rs == [] || Retried(was, |was|, now) ==> next == now + AR_TTL)
  {
    assert |was[n..]| == 0;
    if Retried(was, |was|, now) {
      var j :| 0 <= j < |rs| && Deadline(rs[j]) <= now + 16;
      assert now + AR_TTL > Deadline(rs[j]);
    }
  }

  // What a sweep for timeouts leaves, and what it reports.

  predicate Expired(r: Request, now: nat) {
    Overdue(r, now) && r.retries <= 1
  }

  /** Of the first n requests, those that are not reported as timed out, in order. */
  ghost function Survivors(rs: seq<Request>, n: nat, now: nat): seq<Request>
    requires n <= |rs|
  {
    if n == 0 then [] else Survivors(rs, n - 1, now) + if Expired(rs[n - 1], now) then [] else [rs[n - 1]]
  }

  /** The reports for the first n requests, in order. */
  ghost function TimedOut(rs: seq<Request>, n: nat, now: nat): seq<(Request, Result, nat)>
    requires n <= |rs|
  {
    if n == 0 then []
    else TimedOut(rs, n - 1, now) + (if Expired(rs[n - 1], now) then [(rs[n - 1], Timeout, now)] else [])
  }

  /** An overdue request with a retry left waits twice as long from now on, and is asked again if it can be. */
  predicate Deferred(a: Request, b: Request, now: nat) {
    && b == a.(retries := a.retries - 1, sentat := now, timeout := 2 * a.timeout, id := b.id, sends := b.sends,
      lastns := b.lastns)
    && (if a.encodable && a.kind != Other then b.sends == a.sends + 1
        else b.id == a.id && b.sends == a.sends && b.lastns == a.lastns)
  }

  /** The request with its next, longer time. */
  function Postponed(r: Request, now: nat): Request {
    r.(retries := r.retries - 1, sentat := now, timeout := r.timeout + r.timeout)
  }

  lemma PostponedOk(r: Request, now: nat)
    requires RequestOk(r, now) && Overdue(r, now) && r.retries > 1
    ensures var r' := Postponed(r, now);
      && RequestOk(r', now) && r'.sends <= 3 - r'.retries
      && Deadline(r') == now + 2 * r.timeout && now < Deadline(r') <= now + 16
  {
  }

  lemma SentOk(r: Request, b: Request, now: nat)
    requires RequestOk(r, now) && r.sends <= 3 - r.retries
    requires b == r.(id := b.id, sends := r.sends + 1, lastns := b.lastns) && b.id < IDS
    ensures RequestOk(b, now)
  {
  }

  lemma RowOk(rs: seq<Request>, i: nat, now: nat, next: nat)
    requires Table(rs, now, next) && i < |rs|
    ensures RequestOk(rs[i], now)
  {
  }

  predicate Outlived(a: Request, b: Request, now: nat) {
    if Overdue(a, now) then Deferred(a, b, now) else b == a
  }

  /** The first i requests now are the survivors of the first n before. */
  ghost predicate SurvivedTo(rs: seq<Request>, was: seq<Request>, n: nat, i: nat, now: nat) {
    && n <= |was| && i == |Survivors(was, n, now)| <= |rs|
    && (forall j {:trigger rs[j]} :: 0 <= j < i ==> Outlived(Survivors(was, n, now)[j], rs[j], now))
  }

  lemma SurvivedStart(rs: seq<Request>, now: nat)
    ensures SurvivedTo(rs, rs, 0, 0, now) && TimedOut(rs, 0, now) == []
  {
  }

  lemma SurvivedAnswered(rs: seq<Request>, was: seq<Request>, n: nat, i: nat, now: nat)
    requires SurvivedTo(rs, was, n, i, now) && i < |rs| && n < |was| && Expired(was[n], now)
    ensures SurvivedTo(Removed(rs, i), was, n + 1, i, now)
    ensures TimedOut(was, n + 1, now) == TimedOut(was, n, now) + [(was[n], Timeout, now)]
  {
    assert forall j {:trigger Removed(rs, i)[j]} :: 0 <= j < i ==> Removed(rs, i)[j] == rs[j];
  }

  lemma SurvivedKept(before: seq<Request>, after: seq<Request>, was: seq<Request>, n: nat, i: nat, now: nat)
    requires SurvivedTo(before, was, n, i, now) && i < |before| && n < |was| && !Expired(was[n], now)
    requires |after| == |before| && after == before[i := after[i]] && Outlived(was[n], after[i], now)
    ensures SurvivedTo(after, was, n + 1, i + 1, now)
    ensures TimedOut(was, n + 1, now) == TimedOut(was, n, now)
  {
    assert forall j {:trigger after[j]} :: 0 <= j < i ==> after[j] == before[j];
  }

  /** Of the first n requests, those of other queries, in order. */
  ghost function OfOthers(rs: seq<Request>, n: nat, query: Query): (r: seq<Request>)
    requires n <= |rs|
    ensures forall j {:trigger r[j]} :: 0 <= j < |r| ==> r[j].query != query
  {
    if n == 0 then [] else OfOthers(rs, n - 1, query) + if rs[n - 1].query == query then [] else [rs[n - 1]]
  }

  lemma NextOfTail(rs: seq<Request>, was: seq<Request>, i: nat, n: nat)
    requires i < |rs| && n <= |was| && rs[i..] == was[n..]
    ensures n < |was| && rs[i] == was[n] && Removed(rs, i)[i..] == was[n + 1..] && rs[i + 1..] == was[n + 1..]
    ensures Removed(rs, i)[..i] == rs[..i] && rs[..i + 1] == rs[..i] + [rs[i]]
  {
    assert rs[i] == rs[i..][0] && was[n] == was[n..][0];
    assert rs[i + 1..] == rs[i..][1..] && was[n + 1..] == was[n..][1..];
    assert Removed(rs, i)[i..] == rs[i + 1..];
  }

  /** The queries that still wait for an answer. */
  ghost function Waiting(rs: seq<Request>): multiset<Query> {
    if rs == [] then multiset{} else multiset{rs[0].query} + Waiting(rs[1..])
  }

  lemma {:induction false} WaitingConcat(a: seq<Request>, b: seq<Request>)
    ensures Waiting(a + b) == Waiting(a) + Waiting(b)
  {
    if a == [] {
      assert a + b == b;
    } else {
      assert (a + b)[1..] == a[1..] + b;
      WaitingConcat(a[1..], b);
    }
  }

  /** The queries whose callbacks were called, as often as they were. */
  ghost function QueriesOf(answers: seq<(Request, Result, nat)>): multiset<Query> {
    if answers == [] then multiset{}
    else QueriesOf(answers[..|answers| - 1]) + multiset{answers[|answers| - 1].0.query}
  }

  lemma OneMoreAnswer(answers: seq<(Request, Result, nat)>, a: (Request, Result, nat))
    ensures QueriesOf(answers + [a]) == QueriesOf(answers) + multiset{a.0.query}
  {
    assert (answers + [a])[..|answers|] == answers;
  }

  /** A query counts as often as the callback log names it. */
  lemma {:induction false} CallsOf(answers: seq<(Request, Result, nat)>, q: Query)
    ensures QueriesOf(answers)[q] == |CallsFor(answers, q)|
    ensures forall x :: x in CallsFor(answers, q) <==> x in answers && x.0.query == q
  {
    if answers != [] {
      CallsOf(answers[..|answers| - 1], q);
      assert answers == answers[..|answers| - 1] + [answers[|answers| - 1]];
    }
  }

  ghost function CallsFor(answers: seq<(Request, Result, nat)>, q: Query): seq<(Request, Result, nat)> {
    if answers == [] then []
    else CallsFor(answers[..|answers| - 1], q)
         + (if answers[|answers| - 1].0.query == q then [answers[|answers| - 1]] else [])
  }

  lemma WaitingOne(r: Request)
    ensures Waiting([r]) == multiset{r.query}
  {
    assert [r][1..] == [];
  }

  lemma WaitingSplit(rs: seq<Request>, i: nat)
    requires i < |rs|
    ensures Waiting(rs) == Waiting(rs[..i]) + multiset{rs[i].query} + Waiting(rs[i + 1..])
  {
    hide Waiting;
    var a, r, b := rs[..i], rs[i], rs[i + 1..];
    assert rs == a + ([r] + b);
    WaitingConcat(a, [r] + b);
    WaitingConcat([r], b);
    WaitingOne(r);
    Regroup(Waiting(a), multiset{r.query}, Waiting(b));
  }

  lemma Regroup(a: multiset<Query>, b: multiset<Query>, c: multiset<Query>)
    ensures a + (b + c) == a + b + c && a + b + c == a + c + b
  {
  }

  lemma RemovedOk(rs: seq<Request>, i: nat, now: nat, next: nat)
    requires Table(rs, now, next) && i < |rs|
    ensures Table(Removed(rs, i), now, next)
  {
    hide RequestOk, Apart;
    var r := Removed(rs, i);
    forall j, k {:trigger ApartAt(r, j, k)} | 0 <= j < k < |r| ensures ApartAt(r, j, k) {
      assert ApartAt(rs, if j < i then j else j + 1, if k < i then k else k + 1);
    }
  }

  lemma RemovedWaiting(rs: seq<Request>, i: nat)
    requires i < |rs|
    ensures Waiting(rs) == Waiting(Removed(rs, i)) + multiset{rs[i].query}
  {
    hide Waiting;
    WaitingSplit(rs, i);
    WaitingConcat(rs[..i], rs[i + 1..]);
    Regroup(Waiting(rs[..i]), multiset{rs[i].query}, Waiting(rs[i + 1..]));
  }

  /** A request changes in place, keeping its handle and query, and taking no other's identifier. */
  lemma ReplacedOk(rs: seq<Request>, i: nat, r: Request, now: nat, next: nat)
    requires Table(rs, now, next) && i < |rs| && RequestOk(r, now)
    requires r.handle == rs[i].handle && r.query == rs[i].query
    requires r.id == rs[i].id || forall j {:trigger rs[j]} :: 0 <= j < |rs| ==> rs[j].id != r.id
    ensures Table(rs[i := r], now, next) && Waiting(rs[i := r]) == Waiting(rs)
  {
    hide RequestOk, Waiting;
    var s := rs[i := r];
    forall j, k {:trigger ApartAt(s, j, k)} | 0 <= j < k < |s| ensures ApartAt(s, j, k) {
      assert ApartAt(rs, j, k);
    }
    ReplacedWaiting(rs, i, r);
  }

  lemma ReplacedWaiting(rs: seq<Request>, i: nat, r: Request)
    requires i < |rs| && r.query == rs[i].query
    ensures Waiting(rs[i := r]) == Waiting(rs)
  {
    hide Waiting;
    var s := rs[i := r];
    WaitingSplit(rs, i);
    WaitingSplit(s, i);
    assert s[..i] == rs[..i] && s[i + 1..] == rs[i + 1..];
  }

  lemma NewIsOk(r: Request, now: nat)
    requires r.retries == 3 && r.sends == 0 && r.sentat == r.born == now && r.timeout == 4 && r.id == 0
    ensures RequestOk(r, now)
  {
  }

  lemma AddedOk(rs: seq<Request>, r: Request, now: nat, next: nat)
    requires Table(rs, now, next) && RequestOk(r, now) && r.handle == next && r.id == 0
    ensures Table(rs + [r], now, next + 1)
    ensures Waiting(rs + [r]) == Waiting(rs) + multiset{r.query}
  {
    var s := rs + [r];
    forall j, k {:trigger ApartAt(s, j, k)} | 0 <= j < k < |s| ensures ApartAt(s, j, k) {
      if k < |rs| { assert ApartAt(rs, j, k); } else { assert rs[j].handle < next; }
    }
    WaitingConcat(rs, [r]);
    WaitingOne(r);
  }

  lemma LaterOk(rs: seq<Request>, now: nat, later: nat, next: nat)
    requires Table(rs, now, next) && now <= later
    ensures Table(rs, later, next)
  {
  }

  /** The identifier after so many draws, added up in 16 bits. */
  function Mixed(rnd: nat -> nat, from: nat, n: nat): (id: nat)
    ensures id < IDS
  {
    ((if n == 0 then 0 else Mixed(rnd, from, n - 1)) + rnd(from + n)) % IDS
  }

  function Sum(rnd: nat -> nat, from: nat, n: nat): nat {
    if n == 0 then 0 else Sum(rnd, from, n - 1) + rnd(from + n - 1)
  }

  /** The identifier is the sum of the numbers drawn, as 16 bits hold it. */
  lemma {:induction false} MixedIsSum(rnd: nat -> nat, from: nat, n: nat)
    ensures Mixed(rnd, from, n) == Sum(rnd, from, n + 1) % IDS
  {
    if n > 0 { MixedIsSum(rnd, from, n - 1); }
  }

  /** The random source reaches every identifier sooner or later, whatever was drawn before. */
  ghost predicate Lively(rnd: nat -> nat) {
    forall from: nat, id: nat {:trigger Reaches(rnd, from, id)} :: id < IDS ==> Reaches(rnd, from, id)
  }

  ghost predicate Reaches(rnd: nat -> nat, from: nat, id: nat) {
    exists n: nat {:trigger Mixed(rnd, from, n)} :: Mixed(rnd, from, n) == id
  }

  predicate InUse(rs: seq<Request>, id: nat) {
    exists i {:trigger rs[i]} :: 0 <= i < |rs| && rs[i].id == id
  }

  /** Fewer requests than identifiers leave one unused. */
  lemma UnusedExists(rs: seq<Request>) returns (id: nat)
    requires |rs| < IDS
    ensures id < IDS && !InUse(rs, id)
  {
    id := FirstOutside(UsedIds(rs), IDS);
  }

  ghost function UsedIds(rs: seq<Request>): (s: set<nat>)
    ensures |s| <= |rs|
    ensures forall i {:trigger rs[i]} :: 0 <= i < |rs| ==> rs[i].id in s
  {
    if rs == [] then {} else UsedIds(rs[..|rs| - 1]) + {rs[|rs| - 1].id}
  }

  lemma {:induction false} FirstOutside(used: set<nat>, n: nat) returns (id: nat)
    requires |used| < n
    ensures id < n && id !in used
    decreases n
  {
    if n - 1 !in used {
      id := n - 1;
    } else {
      var rest := used - {n - 1};
      assert |rest| == |used| - 1;
      id := FirstOutside(rest, n - 1);
    }
  }

  /** A reply as far as its checks have read it; server is -1 if it is from none of ours. */
  datatype Reply = Reply(id: nat, server: int, sameQuestion: bool, rcode: Rcode, ancount: nat, decoded: bool,
    encodable: bool)

  datatype Rcode = NoErrors | NoSuchName | OtherError

  /** A reply without an error, with answers that could be decoded. */
  predicate Good(reply: Reply) {
    reply.rcode == NoErrors && reply.ancount > 0 && reply.decoded
  }

  /** The first request with an identifier. */
  predicate First(rs: seq<Request>, id: nat, i: int) {
    0 <= i < |rs| && rs[i].id == id && forall j {:trigger rs[j]} :: 0 <= j < i ==> rs[j].id != id
  }

  class Resolver {
    const nscount: nat
    // the k-th random number, and whether the k-th message gets to a server in the first or the second round
    const rnd: nat -> nat
    const delivered: (nat, Round, nat) -> bool
    var now: nat
    var requests: seq<Request>
    var timeoutCount: seq<nat>
    var retrycnt: nat
    var nextHandle: nat
    var drawn: nat
    // bookkeeping of the queries, for the specification
    ghost var submitted: multiset<Query>
    ghost var answered: multiset<Query>
    ghost var cancelled: multiset<Query>
    ghost var answers: seq<(Request, Result, nat)>

    /** Every query handed in is answered, cancelled or waiting, as often as it was handed in. */
    ghost predicate Conserved()
      reads this`requests, this`submitted, this`answered, this`cancelled, this`answers
    {
      && submitted == answered + cancelled + Waiting(requests)
      && answered == QueriesOf(answers)
    }

    /** A timeout is reported after at most three sends and at least 4 + 8 + 16 seconds. */
    ghost predicate AnswersOk()
      reads this`answers
    {
      forall i {:trigger answers[i]} :: 0 <= i < |answers| && answers[i].1.Timeout? ==>
        answers[i].0.sends <= 3 && answers[i].2 >= answers[i].0.born + 28
    }

    ghost predicate Valid()
      reads this
    {
      && Lively(rnd) && |timeoutCount| == nscount
      && Table(requests, now, nextHandle)
      && (forall i {:trigger requests[i]} :: 0 <= i < |requests| ==> requests[i].lastns < nscount)
      && Conserved() && AnswersOk()
    }

    constructor (servers: nat, random: nat -> nat, net: (nat, Round, nat) -> bool, time: nat)
      requires servers >= 1 && Lively(random)
      ensures Valid() && requests == [] && submitted == multiset{} && now == time && nscount == servers
    {
      nscount, rnd, delivered, now := servers, random, net, time;
      requests, timeoutCount, retrycnt, nextHandle, drawn := [], seq(servers, _ => 0), 0, 0, 0;
      submitted, answered, cancelled, answers := multiset{}, multiset{}, multiset{}, [];
    }

    /** A query handed in once has its callback called at most once, and not after it was cancelled. */
    lemma AnsweredOnce(q: Query)
      requires Valid() && submitted[q] == 1
      ensures answered[q] == |CallsFor(answers, q)| && answered[q] + cancelled[q] <= 1
      ensures answered[q] == 1 ==> forall i {:trigger requests[i]} :: 0 <= i < |requests| ==> requests[i].query != q
      ensures answered[q] + cancelled[q] == 0 ==> Waiting(requests)[q] == 1
    {
      assert Waiting(requests)[q] == submitted[q] - answered[q] - cancelled[q];
      CallsOf(answers, q);
      hide Waiting;
      forall i {:trigger requests[i]} | 0 <= i < |requests| && answered[q] == 1 ensures requests[i].query != q {
        RemovedWaiting(requests, i);
      }
    }

    method SetTime(time: nat)
      requires Valid() && time >= now
      modifies this`now
      ensures Valid() && now == time
    {
      LaterOk(requests, now, time, nextHandle);
      now := time;
    }

    /** The first request with an identifier; 0 finds one that was never sent, if there is any. */
    method FindId(id: nat) returns (i: int)
      ensures i >= 0 ==> First(requests, id, i)
      ensures i < 0 <==> !InUse(requests, id)
    {
      var k := 0;
      while k < |requests|
        invariant 0 <= k <= |requests| && forall j {:trigger requests[j]} :: 0 <= j < k ==> requests[j].id != id
      {
        if requests[k].id == id {
          return k;
        }
        k := k + 1;
      }
      i := -1;
    }

    /** Draw identifiers until one is not in use. */
    method FreshId() returns (id: nat)
      requires Lively(rnd) && |requests| < IDS
      modifies this`drawn
      ensures id < IDS && !InUse(requests, id)
      ensures drawn > old(drawn) && id == Mixed(rnd, old(drawn), drawn - old(drawn) - 1)
    {
      ghost var free := UnusedExists(requests);
      assert Reaches(rnd, drawn, free);
      ghost var bound: nat :| Mixed(rnd, drawn, bound) == free;
      ghost var from, n := drawn, 0;
      id := rnd(drawn) % IDS;
      drawn := drawn + 1;
      while true
        invariant n <= bound && drawn == from + n + 1 && id == Mixed(rnd, from, n)
        decreases bound - n
      {
        var found := FindId(id);
        if found < 0 {
          return;
        }
        id := (id + rnd(drawn)) % IDS;
        drawn := drawn + 1;
        n := n + 1;
      }
    }

    /** How many queries to wait before trying a server again that has timed out so often. */
    function RetryFreq(timeouts: nat): (f: nat)
      ensures timeouts == 0 ==> f == 1
      ensures timeouts == 1 ==> f == 3
      ensures timeouts == 2 ==> f == 9
      ensures timeouts == 3 ==> f == 27
      ensures timeouts == 4 ==> f == 81
      ensures timeouts >= 5 ==> f == 243
    {
      assert Power3(2) == 3 * Power3(1) && Power3(1) == 3 * Power3(0);
      assert Power3(4) == 3 * Power3(3) && Power3(3) == 3 * Power3(2);
      Power3(if timeouts < 5 then timeouts else 5)
    }

    /** In this round the message is offered to the server, and gets there. */
    ghost predicate Gets(round: Round, s: nat)
      requires |timeoutCount| == nscount && s < nscount
      reads this`retrycnt, this`timeoutCount
    {
      && (if round == Working then timeoutCount[s] == 0 || retrycnt % RetryFreq(timeoutCount[s]) == 0
          else timeoutCount[s] != 0)
      && delivered(retrycnt, round, s)
    }

    /** In this round none of the first n servers in turn gets the message. */
    ghost predicate Missed(round: Round, n: nat, count: nat)
      requires |timeoutCount| == nscount && n <= nscount && count >= 1
      reads this`retrycnt, this`timeoutCount
    {
      forall k {:trigger Turn(k, count, nscount)} :: 0 <= k < n ==> !Gets(round, Turn(k, count, nscount))
    }

    /** The server gets the message in one of the rounds. */
    ghost predicate Reached(s: nat)
      requires |timeoutCount| == nscount && s < nscount
      reads this`retrycnt, this`timeoutCount
    {
      Gets(Working, s) || Gets(TimedOutBefore, s)
    }

    /** The first server in turn that gets the message; those that timed out are left to a second round. */
    ghost predicate FirstReached(ns: nat, i: nat, count: nat)
      requires |timeoutCount| == nscount && i < nscount && count >= 1
      reads this`retrycnt, this`timeoutCount
    {
      && ns == Turn(i, count, nscount)
      && (|| (Gets(Working, ns) && Missed(Working, i, count))
          || (Gets(TimedOutBefore, ns) && Missed(Working, nscount, count) && Missed(TimedOutBefore, i, count)))
    }

    /** Offer a message to the servers in turn, at most twice to each; -1 if it gets to none. */
    method SendMessage(count: nat) returns (ns: int, ghost turn: nat)
      requires |timeoutCount| == nscount && count >= 1
      modifies this`retrycnt
      ensures retrycnt == old(retrycnt) + 1
      ensures ns != -1 ==> 0 <= ns < nscount && turn < nscount && FirstReached(ns, turn, count)
      ensures ns == -1 <==> forall s: nat {:trigger Reached(s)} :: s < nscount ==> !Reached(s)
    {
      hide Turn, Power3, RetryFreq;
      retrycnt := retrycnt + 1;
      var i := 0;
      while i < nscount
        invariant 0 <= i <= nscount && Missed(Working, i, count)
      {
        ns := Turn(i, count, nscount);
        if !(timeoutCount[ns] != 0 && retrycnt % RetryFreq(timeoutCount[ns]) != 0) {
          if delivered(retrycnt, Working, ns) {
            assert Reached(ns);
            return ns, i;
          }
        }
        i := i + 1;
      }
      i := 0;
      while i < nscount
        invariant 0 <= i <= nscount && Missed(TimedOutBefore, i, count)
      {
        ns := Turn(i, count, nscount);
        if timeoutCount[ns] != 0 && delivered(retrycnt, TimedOutBefore, ns) {
          assert Reached(ns);
          return ns, i;
        }
        i := i + 1;
      }
      ns, turn := -1, 0;
      forall s: nat | s < nscount ensures !Reached(s) {
        var k := TurnReaches(s, count, nscount);
        assert Turn(k, count, nscount) == s;
      }
    }

    /** Update a request in place. */
    method Put(i: nat, r: Request)
      requires Valid() && i < |requests| && RequestOk(r, now) && r.lastns < nscount
      requires r.handle == requests[i].handle && r.query == requests[i].query
      requires r.id == requests[i].id || !InUse(requests, r.id)
      modifies this`requests
      ensures Valid() && requests == old(requests)[i := r]
    {
      hide Waiting, Lively, RequestOk;
      ReplacedOk(requests, i, r, now, nextHandle);
      requests := requests[i := r];
    }

    /** The server noted for the count-th send: the first in turn that got it, or as before if none did. */
    ghost predicate Noted(before: nat, ns: nat, count: nat)
      requires |timeoutCount| == nscount && count >= 1
      reads this`retrycnt, this`timeoutCount
    {
      if exists s: nat {:trigger Reached(s)} :: s < nscount && Reached(s)
      then
        && ns < nscount
        && exists i: nat {:trigger FirstReached(ns, i, count)} :: i < nscount && FirstReached(ns, i, count)
      else ns == before
    }

    /** A request that was sent: once more, under an identifier no request had. */
    ghost predicate Asked(a: Request, b: Request, was: seq<Request>)
      requires |timeoutCount| == nscount
      reads this`retrycnt, this`timeoutCount
    {
      && b == a.(id := b.id, sends := a.sends + 1, lastns := b.lastns) && b.sends >= 1
      && !InUse(was, b.id) && Noted(a.lastns, b.lastns, b.sends)
    }

    /** Send a request under a new identifier, if its name can be put into a query. */
    method QueryName(i: nat)
      requires Valid() && i < |requests| < IDS && requests[i].sends <= 3 - requests[i].retries
      requires nscount >= 1
      modifies this`requests, this`retrycnt, this`drawn
      ensures Valid() && |requests| == |old(requests)|
      ensures !old(requests)[i].encodable ==> requests == old(requests)
      ensures old(requests)[i].encodable ==>
                requests == old(requests)[i := requests[i]] && Asked(old(requests)[i], requests[i], old(requests))
    {
      hide Waiting, Lively, Apart, ApartAt, RequestOk, Table, Conserved, AnswersOk, InUse, FirstReached, Noted, Mixed;
      if requests[i].encodable {
        RowOk(requests, i, now, nextHandle);
        var id := FreshId();
        var ns, turn := SendMessage(requests[i].sends + 1);
        NotedBy(requests[i].lastns, ns, turn, requests[i].sends + 1);
        var r := requests[i].(id := id, sends := requests[i].sends + 1);
        if ns != -1 {
          r := r.(lastns := ns);
        }
        SentOk(requests[i], r, now);
        Put(i, r);
      }
    }

    lemma NotedBy(before: nat, ns: int, turn: nat, count: nat)
      requires |timeoutCount| == nscount && count >= 1
      requires ns != -1 ==> 0 <= ns < nscount && turn < nscount && FirstReached(ns, turn, count)
      requires ns == -1 <==> forall s: nat {:trigger Reached(s)} :: s < nscount ==> !Reached(s)
      ensures Noted(before, if ns == -1 then before else ns, count)
    {
    }

    /** Ask again, if it is a question that is asked again. */
    method ResendQuery(i: nat)
      requires Valid() && i < |requests| < IDS && requests[i].sends <= 3 - requests[i].retries && nscount >= 1
      modifies this`requests, this`retrycnt, this`drawn
      ensures Valid() && |requests| == |old(requests)|
      ensures var r := old(requests)[i];
              if r.encodable && r.kind != Other then
                requests == old(requests)[i := requests[i]] && Asked(r, requests[i], old(requests))
              else requests == old(requests)
    {
      if requests[i].kind != Other {
        QueryName(i);
      }
    }

    /** A request whose time is up and that has a retry left: wait twice as long, ask again. */
    method Retry(i: nat)
      requires Valid() && i < |requests| < IDS && Overdue(requests[i], now) && requests[i].retries > 1 && nscount >= 1
      modifies this`requests, this`retrycnt, this`drawn, this`timeoutCount
      ensures Valid() && |requests| == |old(requests)| && requests == old(requests)[i := requests[i]]
      ensures Deadline(requests[i]) == now + 2 * old(requests)[i].timeout && now < Deadline(requests[i]) <= now + 16
      ensures Deferred(old(requests)[i], requests[i], now)
      ensures var ns := old(requests)[i].lastns;
              ns < nscount && timeoutCount == old(timeoutCount)[ns := old(timeoutCount)[ns] + 1]
    {
      hide Waiting, Lively, Table, RequestOk, AnswersOk, Conserved, Deadline, Deferred, Overdue, Asked;
      var r := requests[i];
      RowOk(requests, i, now, nextHandle);
      PostponedOk(r, now);
      timeoutCount := timeoutCount[r.lastns := timeoutCount[r.lastns] + 1];
      Put(i, Postponed(r, now));
      ghost var before := requests;
      ResendQuery(i);
      PostponedAsked(r, requests[i], before);
    }

    lemma PostponedAsked(r: Request, b: Request, was: seq<Request>)
      requires |timeoutCount| == nscount && r.retries > 1 && Overdue(r, now)
      requires var r' := Postponed(r, now); if r'.encodable && r'.kind != Other then Asked(r', b, was) else b == r'
      ensures Deferred(r, b, now) && Deadline(b) == Deadline(Postponed(r, now))
    {
    }

    /**
      Report requests whose third time is up, and only these; ask again for the others
      whose time is up, and say when to look again. Nothing is left overdue; the time to look
      again is right unless something was asked again, for then it is 600
      seconds away although that request is due in at most 16.
     */
    method TimeoutQueryList() returns (next: nat)
      requires Valid() && |requests| < IDS && nscount >= 1
      modifies this`requests, this`retrycnt, this`drawn, this`timeoutCount, this`answered, this`answers
      ensures Valid() && next > now
      ensures forall j {:trigger requests[j]} :: 0 <= j < |requests| ==> !Overdue(requests[j], now)
      ensures (forall j {:trigger requests[j]} :: 0 <= j < |requests| ==> next <= Deadline(requests[j])) <==>
              !Retried(old(requests), |old(requests)|, now)
      ensures requests == [] || Retried(old(requests), |old(requests)|, now) ==> next == now + AR_TTL
      ensures answers == old(answers) + TimedOut(old(requests), |old(requests)|, now)
      ensures SurvivedTo(requests, old(requests), |old(requests)|, |requests|, now)
    {
      hide Waiting, Lively, SweptTo, Retried, RequestOk, Table, AnswersOk, Conserved, Overdue, Deadline, Deferred,
           SurvivedTo, TimedOut;
      ghost var was := requests;
      ghost var n := 0;
      var nextTime: nat, i: nat := 0, 0;
      SweepStart(was, now);
      SurvivedStart(was, now);
      while i < |requests|
        invariant n <= |was| && i <= |requests| && Valid()
        invariant SweptTo(requests, was, n, i, nextTime, now) && |requests| <= |was| < IDS
        invariant SurvivedTo(requests, was, n, i, now) && answers == old(answers) + TimedOut(was, n, now)
        decreases |was| - n
      {
        ghost var before := requests;
        SweepStep(requests, was, n, i, nextTime, now, nextHandle);
        var timeout := Deadline(requests[i]);
        OverdueIs(requests[i], now);
        if now >= timeout && requests[i].retries - 1 <= 0 {
          Answer(i, Timeout);
          SweepAnswered(before, was, n, i, nextTime, now);
          SurvivedAnswered(before, was, n, i, now);
        } else {
          if now >= timeout {
            Retry(i);
          }
          SweepKept(before, requests, was, n, i, nextTime, now);
          SurvivedKept(before, requests, was, n, i, now);
          if nextTime == 0 || timeout < nextTime {
            nextTime := timeout;
          }
          i := i + 1;
        }
        n := n + 1;
      }
      SweepEnd(requests, was, n, nextTime, now);
      next := if nextTime > now then nextTime else now + AR_TTL;
    }

    /** A new request for a query, at the end of the table, sent once if it can be. */
    method MakeRequest(query: Query, kind: Kind, encodable: bool, v6: bool)
      requires Valid() && |requests| < IDS - 1 && nscount >= 1
      modifies this`requests, this`retrycnt, this`drawn, this`nextHandle, this`submitted
      ensures Valid() && submitted == old(submitted) + multiset{query}
      ensures |requests| == |old(requests)| + 1
      ensures requests[..|old(requests)|] == old(requests) && nextHandle >= old(nextHandle)
      ensures var r := Request(old(nextHandle), 0, kind, query, 3, 0, now, 4, 0, encodable, v6, now);
              if encodable then Asked(r, requests[|old(requests)|], old(requests) + [r])
                else requests[|old(requests)|] == r
    {
      hide Waiting, RequestOk, Lively, Apart, ApartAt;
      Enter(query, kind, encodable, v6);
      QueryName(|requests| - 1);
    }

    method Enter(query: Query, kind: Kind, encodable: bool, v6: bool)
      requires Valid() && nscount >= 1
      modifies this`requests, this`nextHandle, this`submitted
      ensures Valid() && submitted == old(submitted) + multiset{query} && nextHandle == old(nextHandle) + 1
      ensures requests ==
              old(requests) + [Request(old(nextHandle), 0, kind, query, 3, 0, now, 4, 0, encodable, v6, now)]
    {
      hide Waiting, Lively, Table, RequestOk, AnswersOk;
      var r := Request(nextHandle, 0, kind, query, 3, 0, now, 4, 0, encodable, v6, now);
      NewIsOk(r, now);
      AddedOk(requests, r, now, nextHandle);
      Entered(submitted, answered, cancelled, Waiting(requests), query);
      requests := requests + [r];
      nextHandle := nextHandle + 1;
      submitted := submitted + multiset{query};
    }

    /** Call the query's callback and take the request off the table. */
    method Answer(i: nat, result: Result)
      requires Valid() && i < |requests|
      requires result.Timeout? ==> requests[i].sends <= 3 && now >= requests[i].born + 28
      modifies this`requests, this`answered, this`answers
      ensures Valid() && requests == Removed(old(requests), i)
      ensures answered == old(answered) + multiset{old(requests)[i].query}
      ensures answers == old(answers) + [(old(requests)[i], result, now)]
    {
      hide Waiting, QueriesOf, Lively, Table, RequestOk;
      RemovedOk(requests, i, now, nextHandle);
      RemovedWaiting(requests, i);
      Accounted(submitted, answered, cancelled, Waiting(Removed(requests, i)), requests[i].query);
      OneMoreAnswer(answers, (requests[i], result, now));
      answered := answered + multiset{requests[i].query};
      answers := answers + [(requests[i], result, now)];
      requests := Removed(requests, i);
    }

    /** Forget every request of a query, and no other. */
    method DeleteQueries(query: Query)
      requires Valid()
      modifies this`requests, this`cancelled
      ensures Valid() && requests == OfOthers(old(requests), |old(requests)|, query)
      ensures forall i {:trigger requests[i]} :: 0 <= i < |requests| ==> requests[i].query != query
      ensures answered == old(answered)
      ensures forall q: Query {:trigger cancelled[q]} :: q != query ==> cancelled[q] == old(cancelled)[q]
    {
      hide Waiting, RequestOk, Lively, Table, Conserved, AnswersOk;
      var i := 0;
      ghost var was, n := requests, 0;
      while i < |requests|
        invariant 0 <= i <= |requests| && Valid() && n <= |was|
        invariant requests[i..] == was[n..] && requests[..i] == OfOthers(was, n, query)
        invariant forall q: Query {:trigger cancelled[q]} :: q != query ==> cancelled[q] == old(cancelled)[q]
        decreases |requests| - i
      {
        NextOfTail(requests, was, i, n);
        if requests[i].query == query {
          Forget(i);
        } else {
          i := i + 1;
        }
        n := n + 1;
      }
    }

    method Forget(i: nat)
      requires Valid() && i < |requests|
      modifies this`requests, this`cancelled
      ensures Valid() && requests == Removed(old(requests), i)
      ensures cancelled == old(cancelled) + multiset{old(requests)[i].query}
    {
      hide Waiting;
      RemovedOk(requests, i, now, nextHandle);
      RemovedWaiting(requests, i);
      Accounted(submitted, cancelled, answered, Waiting(Removed(requests, i)), requests[i].query);
      cancelled := cancelled + multiset{requests[i].query};
      requests := Removed(requests, i);
    }

    /**
      Take in a reply: unknown identifiers, foreign servers and other questions
      are ignored; an address lookup that succeeds hands its query on to a
      lookup of the name it found; everything else answers the query.
     */
    method ReadReply(reply: Reply)
      requires Valid() && |requests| < IDS - 1 && nscount >= 1 && reply.server < nscount
      modifies this`requests, this`retrycnt, this`drawn, this`nextHandle, this`timeoutCount, this`answered,
               this`answers, this`submitted
      ensures Valid() && submitted == old(submitted)
      ensures !InUse(old(requests), reply.id) || reply.server < 0 || !reply.sameQuestion ==>
        requests == old(requests) && answers == old(answers)
      ensures timeoutCount ==
              if InUse(old(requests), reply.id) && reply.server >= 0 then old(timeoutCount)[reply.server := 0]
              else old(timeoutCount)
      ensures forall i {:trigger First(old(requests), reply.id, i)} ::
                First(old(requests), reply.id, i) && reply.server >= 0 && reply.sameQuestion ==>
                && (reply.rcode == NoSuchName ==> Answered(old(requests), old(answers), i, NxDomain))
                && (reply.rcode == OtherError ==> Answered(old(requests), old(answers), i, Invalid))
                && (reply.rcode == NoErrors && reply.ancount == 0 ==>
                  Answered(old(requests), old(answers), i, Invalid))
                && (reply.rcode == NoErrors && !reply.decoded ==> Answered(old(requests), old(answers), i, Invalid))
                && (Good(reply) && old(requests)[i].kind != PTR ==>
                  Answered(old(requests), old(answers), i, Success))
                && (Good(reply) && old(requests)[i].kind == PTR ==> HandedOn(old(requests), old(answers), i))
    {
      hide Waiting, RequestOk;
      var i := FindId(reply.id);
      if i < 0 || reply.server < 0 {
        return;
      }
      timeoutCount := timeoutCount[reply.server := 0];
      if !reply.sameQuestion {
        return;
      }
      Settle(i, reply);
    }

    /** Request i has been answered, once, and is gone; nothing else has happened. */
    ghost predicate Answered(rs: seq<Request>, ans: seq<(Request, Result, nat)>, i: int, result: Result)
      requires 0 <= i < |rs|
      reads this`requests, this`answers, this`now
    {
      requests == Removed(rs, i) && answers == ans + [(rs[i], result, now)]
    }

    /** Request i is gone, unanswered; a lookup of the name found for it is there instead, for the same query. */
    ghost predicate HandedOn(rs: seq<Request>, ans: seq<(Request, Result, nat)>, i: int)
      requires 0 <= i < |rs|
      reads this`requests, this`answers
    {
      && answers == ans && |requests| == |rs| && requests[..|rs| - 1] == Removed(rs, i)
      && requests[|rs| - 1].query == rs[i].query && requests[|rs| - 1].kind == if rs[i].v6 then AAAA else A
    }

    /** What a reply that belongs to request i means for it. */
    method Settle(i: nat, reply: Reply)
      requires Valid() && i < |requests| < IDS - 1 && nscount >= 1
      modifies this`requests, this`retrycnt, this`drawn, this`nextHandle, this`answered, this`answers, this`submitted
      ensures Valid() && submitted == old(submitted) && nextHandle >= old(nextHandle)
      ensures reply.rcode == NoSuchName ==> Answered(old(requests), old(answers), i, NxDomain)
      ensures reply.rcode != NoSuchName && !Good(reply) ==> Answered(old(requests), old(answers), i, Invalid)
      ensures Good(reply) && old(requests)[i].kind != PTR ==> Answered(old(requests), old(answers), i, Success)
      ensures Good(reply) && old(requests)[i].kind == PTR ==> HandedOn(old(requests), old(answers), i)
    {
      hide Waiting, RequestOk;
      if reply.rcode != NoErrors || reply.ancount == 0 {
        if reply.rcode == NoSuchName {
          Answer(i, NxDomain);
        } else {
          Answer(i, Invalid);
        }
      } else if reply.decoded {
        if requests[i].kind == PTR {
          HandOn(i, reply.encodable);
        } else {
          Answer(i, Success);
        }
      } else {
        Answer(i, Invalid);
      }
    }

    /** The name found for an address is looked up for the same query; the address lookup is done. */
    method HandOn(i: nat, encodable: bool)
      requires Valid() && i < |requests| < IDS - 1 && nscount >= 1
      modifies this`requests, this`retrycnt, this`drawn, this`nextHandle, this`submitted
      ensures Valid() && submitted == old(submitted) && nextHandle >= old(nextHandle)
      ensures |requests| == |old(requests)| && requests[..|old(requests)| - 1] == Removed(old(requests), i)
      ensures requests[|old(requests)| - 1].query == old(requests)[i].query
      ensures requests[|old(requests)| - 1].kind == if old(requests)[i].v6 then AAAA else A
    {
      hide Waiting, Lively, RequestOk;
      ghost var was := requests;
      MakeRequest(requests[i].query, if requests[i].v6 then AAAA else A, encodable, requests[i].v6);
      assert requests[i] == requests[..|was|][i] == was[i];
      RemovedLast(was, requests, i);
      Withdraw(i, old(submitted));
    }

    /** Take a request off the table whose query was entered a second time. */
    method Withdraw(i: nat, ghost s: multiset<Query>)
      requires Valid() && i < |requests| && submitted == s + multiset{requests[i].query}
      modifies this`requests, this`submitted
      ensures Valid() && submitted == s && requests == Removed(old(requests), i)
    {
      hide Waiting, Lively;
      RemovedOk(requests, i, now, nextHandle);
      RemovedWaiting(requests, i);
      Withdrawn(s, answered, cancelled, Waiting(Removed(requests, i)), requests[i].query);
      requests := Removed(requests, i);
      submitted := s;
    }
  }

  /** A nonzero identifier belongs to one request. */
  lemma OnlyOne(rs: seq<Request>, now: nat, next: nat, i: nat)
    requires Table(rs, now, next) && i < |rs|
    ensures rs[i].id != 0 ==> forall j {:trigger rs[j]} :: 0 <= j < |rs| && j != i ==> rs[j].id != rs[i].id
    ensures rs[i].id != 0 ==> First(rs, rs[i].id, i)
  {
    forall j {:trigger rs[j]} | 0 <= j < |rs| && j != i && rs[i].id != 0 ensures rs[j].id != rs[i].id {
      assert if j < i then ApartAt(rs, j, i) else ApartAt(rs, i, j);
    }
  }

  lemma RemovedLast(was: seq<Request>, now: seq<Request>, i: nat)
    requires i < |was| && |now| == |was| + 1 && now[..|was|] == was
    ensures Removed(now, i) == Removed(was, i) + [now[|was|]]
  {
    var a, b := Removed(now, i), Removed(was, i) + [now[|was|]];
    forall k | 0 <= k < |a| ensures a[k] == b[k] {
      var p := if k < i then k else k + 1;
      assert p < |was| ==> now[p] == now[..|was|][p];
    }
  }

  lemma Entered(s: multiset<Query>, a: multiset<Query>, c: multiset<Query>, w: multiset<Query>, q: Query)
    ensures s == a + c + w ==> s + multiset{q} == a + c + (w + multiset{q})
  {
  }

  lemma Accounted(s: multiset<Query>, a: multiset<Query>, c: multiset<Query>, w: multiset<Query>, q: Query)
    ensures s == a + c + (w + multiset{q}) ==> s == (a + multiset{q}) + c + w
    ensures s == c + a + (w + multiset{q}) ==> s == c + (a + multiset{q}) + w
  {
  }

  lemma Withdrawn(s: multiset<Query>, a: multiset<Query>, c: multiset<Query>, w: multiset<Query>, q: Query)
    ensures s + multiset{q} == a + c + (w + multiset{q}) ==> s == a + c + w
  {
    if s + multiset{q} == a + c + (w + multiset{q}) {
      forall x ensures s[x] == (a + c + w)[x] {
        assert (s + multiset{q})[x] == (a + c + (w + multiset{q}))[x];
      }
    }
  }

  // ----- the time to look again, at work -----

  /** A random source that always gives 1 counts through all identifiers. */
  lemma {:induction false} OnesMixed(rnd: nat -> nat, from: nat, n: nat)
    requires forall k: nat :: rnd(k) == 1
    ensures Mixed(rnd, from, n) == (n + 1) % IDS
  {
    if n > 0 { OnesMixed(rnd, from, n - 1); }
  }

  lemma OnesAreLively(rnd: nat -> nat)
    requires forall k: nat :: rnd(k) == 1
    ensures Lively(rnd)
  {
    forall from: nat, id: nat {:trigger Reaches(rnd, from, id)} | id < IDS ensures Reaches(rnd, from, id) {
      var n := if id == 0 then IDS - 1 else id - 1;
      OnesMixed(rnd, from, n);
      assert Mixed(rnd, from, n) == id;
    }
  }

  /** One request, sent at second 0 and again at second 4, is due at 12; the time to look again is 604. */
  method LooksTooLate() returns (r: Resolver, next: nat)
    ensures r.Valid() && r.now == 4 && next == 604
    ensures |r.requests| == 1 && Deadline(r.requests[0]) == 12
  {
    OnesAreLively(_ => 1);
    r := new Resolver(1, _ => 1, (k, round, s) => true, 0);
    r.MakeRequest(7, A, true, false);
    ghost var was := r.requests;
    r.SetTime(4);
    next := r.TimeoutQueryList();
    DueAtTwelve(was, r.requests);
  }

  lemma DueAtTwelve(was: seq<Request>, rs: seq<Request>)
    requires |was| == 1 && was[0].retries == 3 && was[0].sentat == 0 && was[0].timeout == 4
    requires SurvivedTo(rs, was, 1, |rs|, 4)
    ensures Retried(was, 1, 4) && |rs| == 1 && Deadline(rs[0]) == 12
  {
    assert Overdue(was[0], 4) && was[0].retries > 1;
    assert Survivors(was, 0, 4) == [] && Survivors(was, 1, 4) == [was[0]];
    assert Outlived(was[0], rs[0], 4);
  }

  function Power3(n: nat): (p: nat)
    ensures p >= 1
  {
    if n == 0 then 1 else 3 * Power3(n - 1)
  }

  /** The server that is tried i-th on the count-th send. */
  function Turn(i: int, count: int, servers: nat): (ns: int)
    requires servers > 0 && i >= 0 && count >= 1
    ensures 0 <= ns < servers
  {
    (i + count - 1) % servers
  }

  /** The first send begins with server 0, and each later send one server further on, in a circle. */
  lemma TurnMoves(i: nat, count: nat, servers: nat)
    requires servers > 0 && count >= 1
    ensures Turn(0, 1, servers) == 0 && Turn(i, count + 1, servers) == Turn(i + 1, count, servers)
    ensures Turn(i + 1, count, servers) == if Turn(i, count, servers) + 1 == servers then 0
                                           else Turn(i, count, servers) + 1
  {
    NextResidue(i + count - 1, servers);
    assert i + 1 + count - 1 == i + count - 1 + 1;
  }

  lemma NextResidue(v: nat, n: nat)
    requires n > 0
    ensures (v + 1) % n == if v % n + 1 == n then 0 else v % n + 1
  {
    var q, r := v / n, v % n;
    Rotation.MulAdd(q, 1, n);
    if r + 1 == n { Rotation.Residue(n, q + 1, 0); } else { Rotation.Residue(n, q, r + 1); }
  }

  lemma TurnReaches(s: nat, count: nat, servers: nat) returns (k: nat)
    requires s < servers && count >= 1
    ensures k < servers && Turn(k, count, servers) == s
  {
    var r := (count - 1) % servers;
    k := if s >= r then s - r else s - r + servers;
    var q := (count - 1) / servers;
    assert count - 1 == servers * q + r;
    Rotation.MulAdd(q, 1, servers);
    Rotation.Residue(servers, q, s);
    Rotation.Residue(servers, q + 1, s);
  }
}

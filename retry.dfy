/**
 * The retry loop that the declared topology sets up: RabbitMQ moves a job's
 * message from the worker queue to the retry exchange when a worker rejects
 * it, and from the retry queue back to the primary exchange when its TTL runs
 * out. The broker, not the service, drives these transitions; this module
 * states them as a transition system over a `Topology`, with TTL expiry as an
 * enabled step rather than a clock.
 */
module Retry {
  import opened Wrappers
  import opened Rabbit

  /**
   * The copies of one job's message that the broker holds, as multisets of
   * queue names: one occurrence per copy ready on that queue, and one per copy
   * delivered from that queue to a consumer and not yet settled; `acked`
   * counts acknowledged copies. `key` is the routing key the message was
   * published with (dead-lettering keeps it).
   */
  datatype Net = Net(key: string, ready: multiset<string>, unacked: multiset<string>, acked: nat)

  datatype Event =
    | Publish(exchange: string)   // a publisher sends the message to `exchange`
    | Deliver(queue: string)      // the broker hands a ready copy to a consumer
    | Ack(queue: string)          // the consumer acknowledges it
    | Reject(queue: string)       // the consumer rejects it without requeue
    | Expire(queue: string)       // the copy at the head of a TTL queue outlives its TTL

  /** Ready copies after `exchange` receives the message: one more on each queue it routes to. */
  function Enqueue(t: Topology, m: multiset<string>, exchange: string, key: string): multiset<string> {
    m + multiset(Route(t, exchange, key))
  }

  /** The dead-letter exchange of the queue `t` declares under the name `q`, if any. */
  function DeadLetterOf(t: Topology, q: string): Option<string> {
    match FindQueue(t.queues, q)
    case Some(decl) => DeadLetterExchange(decl)
    case None => None
  }

  /**
   * Ready copies after a copy leaves queue `q` dead: republished to the queue's
   * dead-letter exchange if it has one, dropped otherwise.
   */
  function DeadLetter(t: Topology, m: multiset<string>, q: string, key: string): multiset<string> {
    match DeadLetterOf(t, q)
    case Some(x) => Enqueue(t, m, x, key)
    case None => m
  }

  /** Queue `q` is declared with a message TTL. */
  predicate HasTtl(t: Topology, q: string) {
    FindQueue(t.queues, q).Some? && MessageTtl(FindQueue(t.queues, q).value).Some?
  }

  /**
   * One broker transition, or `None` when the event is not enabled. A publish
   * to an exchange `t` does not declare is a channel error, not a step.
   */
  function Step(t: Topology, s: Net, e: Event): Option<Net> {
    match e
    case Publish(x) =>
      if HasExchange(t, x) then Some(s.(ready := Enqueue(t, s.ready, x, s.key))) else None
    case Deliver(q) =>
      if q in s.ready
      then Some(s.(ready := s.ready - multiset{q}, unacked := s.unacked + multiset{q}))
      else None
    case Ack(q) =>
      if q in s.unacked
      then Some(s.(unacked := s.unacked - multiset{q}, acked := s.acked + 1))
      else None
    case Reject(q) =>
      if q in s.unacked
      then Some(s.(unacked := s.unacked - multiset{q}, ready := DeadLetter(t, s.ready, q, s.key)))
      else None
    case Expire(q) =>
      if q in s.ready && HasTtl(t, q)
      then Some(s.(ready := DeadLetter(t, s.ready - multiset{q}, q, s.key)))
      else None
  }

  /** The events `es` in order; `None` as soon as one is not enabled. */
  function Run(t: Topology, s: Net, es: seq<Event>): Option<Net>
    decreases |es|
  {
    if es == [] then Some(s)
    else match Step(t, s, es[0])
      case None => None
      case Some(s') => Run(t, s', es[1..])
  }

  /** The number of acknowledgements in `es`. */
  function AckCount(es: seq<Event>): nat {
    if es == [] then 0 else (if es[0].Ack? then 1 else 0) + AckCount(es[1..])
  }

  /**
   * A publish is enabled exactly when its exchange is declared; every step
   * keeps the routing key, and only an acknowledgement counts one.
   */
  lemma StepFacts(t: Topology, s: Net, e: Event)
    ensures e.Publish? ==> (Step(t, s, e).Some? <==> HasExchange(t, e.exchange))
    ensures Step(t, s, e).Some? ==>
      && Step(t, s, e).value.key == s.key
      && Step(t, s, e).value.acked == if e.Ack? then s.acked + 1 else s.acked
  {
  }

  /** A run keeps the routing key and counts one acknowledgement per `Ack` event. */
  lemma {:induction false} RunFacts(t: Topology, s: Net, es: seq<Event>)
    ensures Run(t, s, es).Some? ==>
      Run(t, s, es).value.key == s.key && Run(t, s, es).value.acked == s.acked + AckCount(es)
    decreases |es|
  {
    if es != [] {
      StepFacts(t, s, es[0]);
      match Step(t, s, es[0])
      case None =>
      case Some(s') => RunFacts(t, s', es[1..]);
    }
  }

  lemma {:induction false} RunAppend(t: Topology, s: Net, a: seq<Event>, b: seq<Event>)
    ensures Run(t, s, a + b) == match Run(t, s, a) case None => None case Some(s') => Run(t, s', b)
    decreases |a|
  {
    if a == [] {
      assert a + b == b;
    } else {
      assert (a + b)[0] == a[0] && (a + b)[1..] == a[1..] + b;
      match Step(t, s, a[0])
      case None =>
      case Some(s') => RunAppend(t, s', a[1..], b);
    }
  }

  /** Copies of the job that can still reach a worker: on or taken from the worker or retry queue. */
  function Live(s: Net): nat {
    s.ready[WorkerQueue] + s.ready[RetryQueue] + s.unacked[WorkerQueue] + s.unacked[RetryQueue]
  }

  /**
   * The wiring the retry loop relies on: the primary exchange fans out to the
   * worker and archive queues, the retry exchange to the retry queue; the
   * worker queue dead-letters to the retry exchange and the retry queue to the
   * primary exchange; no other queue dead-letters; only the retry queue has a TTL.
   */
  ghost predicate RetryWiring(t: Topology) {
    && (forall k :: Route(t, PrimaryExchange, k) == {WorkerQueue, ArchiveQueue})
    && (forall k :: Route(t, RetryExchange, k) == {RetryQueue})
    && (forall q :: DeadLetterOf(t, q) == if q == WorkerQueue then Some(RetryExchange)
                                         else if q == RetryQueue then Some(PrimaryExchange) else None)
    && (forall q :: HasTtl(t, q) <==> q == RetryQueue)
  }

  /** The topology `initRabbit` declares has that wiring. */
  lemma DeclaredWiring()
    ensures RetryWiring(Declared())
  {
    var t := Declared();
    forall k ensures Route(t, PrimaryExchange, k) == {WorkerQueue, ArchiveQueue}
      && Route(t, RetryExchange, k) == {RetryQueue} {
      DeclaredRoutes(PrimaryExchange, k);
    }
    forall q ensures (DeadLetterOf(t, q) == if q == WorkerQueue then Some(RetryExchange)
                                           else if q == RetryQueue then Some(PrimaryExchange) else None)
                  && (HasTtl(t, q) <==> q == RetryQueue) {
      DeclaredFindQueue(q);
      DeclaredQueueArguments();
    }
  }

  /**
   * Where a dead copy goes under that wiring: from the worker queue to the
   * retry queue; from the retry queue to both the worker and the archive
   * queue; from any other queue nowhere.
   */
  lemma DeadLetterTargets(t: Topology, m: multiset<string>, q: string, key: string)
    requires RetryWiring(t)
    ensures DeadLetter(t, m, q, key) ==
      if q == WorkerQueue then m + multiset{RetryQueue}
      else if q == RetryQueue then m + multiset{WorkerQueue, ArchiveQueue}
      else m
  {
    if q == WorkerQueue {
      assert Route(t, RetryExchange, key) == {RetryQueue};
      assert multiset({RetryQueue}) == multiset{RetryQueue};
    } else if q == RetryQueue {
      assert Route(t, PrimaryExchange, key) == {WorkerQueue, ArchiveQueue};
      assert multiset({WorkerQueue, ArchiveQueue}) == multiset{WorkerQueue, ArchiveQueue};
    }
  }

  /**
   * Fan-out completeness: publishing to the primary exchange puts exactly one
   * copy on the worker queue and one on the archive queue, and changes nothing else.
   */
  lemma PublishFansOut(t: Topology, s: Net)
    requires RetryWiring(t)
    ensures Step(t, s, Publish(PrimaryExchange)) ==
      Some(s.(ready := s.ready + multiset{WorkerQueue, ArchiveQueue}))
  {
    assert Route(t, PrimaryExchange, s.key) == {WorkerQueue, ArchiveQueue};
    assert HasExchange(t, PrimaryExchange);
    assert multiset({WorkerQueue, ArchiveQueue}) == multiset{WorkerQueue, ArchiveQueue};
  }

  /** A worker's rejection sends the copy to the retry queue, and only there. */
  lemma RejectEntersCooldown(t: Topology, s: Net)
    requires RetryWiring(t)
    requires WorkerQueue in s.unacked
    ensures Step(t, s, Reject(WorkerQueue)) ==
      Some(s.(unacked := s.unacked - multiset{WorkerQueue}, ready := s.ready + multiset{RetryQueue}))
  {
    DeadLetterTargets(t, s.ready, WorkerQueue, s.key);
  }

  /**
   * When a copy's TTL on the retry queue runs out it goes back through the
   * primary exchange, so the worker queue AND the archive queue each gain one.
   */
  lemma ExpiryRequeues(t: Topology, s: Net)
    requires RetryWiring(t)
    requires RetryQueue in s.ready
    ensures Step(t, s, Expire(RetryQueue)) ==
      Some(s.(ready := s.ready - multiset{RetryQueue} + multiset{WorkerQueue, ArchiveQueue}))
  {
    DeadLetterTargets(t, s.ready - multiset{RetryQueue}, RetryQueue, s.key);
  }

  /**
   * Only the retry queue expires messages, and a copy rejected from the archive
   * queue is dropped: the archive copy never re-enters the loop.
   */
  lemma OnlyRetryQueueExpires(t: Topology, s: Net, q: string)
    requires RetryWiring(t)
    requires q != RetryQueue
    ensures Step(t, s, Expire(q)).None?
    ensures ArchiveQueue in s.unacked ==>
      Step(t, s, Reject(ArchiveQueue)) == Some(s.(unacked := s.unacked - multiset{ArchiveQueue}))
  {
    DeadLetterTargets(t, s.ready, ArchiveQueue, s.key);
  }

  /** One delivery attempt that fails: deliver, reject, wait out the TTL. */
  const FailedAttempt := [Deliver(WorkerQueue), Reject(WorkerQueue), Expire(RetryQueue)]

  /**
   * A failed attempt brings the job back onto the worker queue exactly as it
   * was, except that the archive queue holds one more copy.
   */
  lemma FailedAttemptCycles(t: Topology, s: Net)
    requires RetryWiring(t)
    requires WorkerQueue in s.ready
    ensures Run(t, s, FailedAttempt) == Some(s.(ready := s.ready + multiset{ArchiveQueue}))
  {
    var s1 := s.(ready := s.ready - multiset{WorkerQueue}, unacked := s.unacked + multiset{WorkerQueue});
    var s2 := s1.(unacked := s1.unacked - multiset{WorkerQueue}, ready := s1.ready + multiset{RetryQueue});
    var s3 := s2.(ready := s2.ready - multiset{RetryQueue} + multiset{WorkerQueue, ArchiveQueue});
    RunCons(t, s, Deliver(WorkerQueue), [Reject(WorkerQueue), Expire(RetryQueue)], s1);
    RejectEntersCooldown(t, s1);
    RunCons(t, s1, Reject(WorkerQueue), [Expire(RetryQueue)], s2);
    assert s2.unacked == s.unacked;
    ExpiryRequeues(t, s2);
    RunCons(t, s2, Expire(RetryQueue), [], s3);
    CycleCounts(s.ready);
  }

  /** Proof helper: running `[e] + es` is one step followed by the rest. */
  lemma RunCons(t: Topology, s: Net, e: Event, es: seq<Event>, s1: Net)
    requires Step(t, s, e) == Some(s1)
    ensures Run(t, s, [e] + es) == Run(t, s1, es)
  {
    assert ([e] + es)[1..] == es;
  }

  /** Proof helper: the multiset arithmetic of one failed attempt on the ready copies. */
  lemma CycleCounts(m: multiset<string>)
    requires WorkerQueue in m
    ensures m - multiset{WorkerQueue} + multiset{RetryQueue} - multiset{RetryQueue} + multiset{WorkerQueue, ArchiveQueue}
      == m + multiset{ArchiveQueue}
  {
  }

  /** `n` failed attempts in a row. */
  function Attempts(n: nat): seq<Event> {
    if n == 0 then [] else Attempts(n - 1) + FailedAttempt
  }

  /** After `n - 1` attempts that end in `s1`, the `n`-th attempt starts from `s1`. */
  lemma AttemptsUnfold(t: Topology, s: Net, n: nat, s1: Net)
    requires n > 0
    requires Run(t, s, Attempts(n - 1)) == Some(s1)
    ensures Run(t, s, Attempts(n)) == Run(t, s1, FailedAttempt)
  {
    RunAppend(t, s, Attempts(n - 1), FailedAttempt);
  }

  /** `n` copies of `q`. */
  function Copies(q: string, n: nat): multiset<string> {
    if n == 0 then multiset{} else Copies(q, n - 1) + multiset{q}
  }

  /** `s` after `n` failed attempts: `n` more copies on the archive queue. */
  function AfterAttempts(s: Net, n: nat): Net {
    s.(ready := s.ready + Copies(ArchiveQueue, n))
  }

  /**
   * There is no retry ceiling: after `n` failed attempts the job is back on the
   * worker queue, nothing was acknowledged, and the only change is `n` more
   * copies on the archive queue.
   */
  lemma {:induction false} RetriesNeverEnd(t: Topology, s: Net, n: nat)
    requires RetryWiring(t)
    requires WorkerQueue in s.ready
    ensures Run(t, s, Attempts(n)) == Some(AfterAttempts(s, n))
  {
    if n == 0 {
      assert s.ready + multiset{} == s.ready;
    } else {
      var s1 := s.(ready := s.ready + Copies(ArchiveQueue, n - 1));
      var s2 := s1.(ready := s1.ready + multiset{ArchiveQueue});
      RetriesNeverEnd(t, s, n - 1);
      assert s1 == AfterAttempts(s, n - 1);
      AttemptsUnfold(t, s, n, s1);
      assert WorkerQueue in s1.ready;
      FailedAttemptCycles(t, s1);
      assert s2 == AfterAttempts(s, n) by {
        assert s2.ready == s.ready + Copies(ArchiveQueue, n);
      }
    }
  }

  /**
   * Only an acknowledgement ends the job: every other broker step keeps the
   * number of live copies (a new publish aside).
   */
  lemma StepKeepsLive(t: Topology, s: Net, e: Event)
    requires RetryWiring(t)
    requires !e.Ack? && !e.Publish?
    requires Step(t, s, e).Some?
    ensures Live(Step(t, s, e).value) == Live(s)
  {
    match e
    case Deliver(q) =>
      var s' := Step(t, s, e).value;
      assert s'.ready + multiset{q} == s.ready && s'.unacked == s.unacked + multiset{q};
      LiveMove(s', s, q);
    case Reject(q) => RejectKeepsLive(t, s, q);
    case Expire(q) => ExpireKeepsLive(t, s, q);
  }

  /** A rejection moves the copy along the dead-letter chain without losing or adding a live copy. */
  lemma RejectKeepsLive(t: Topology, s: Net, q: string)
    requires RetryWiring(t)
    requires q in s.unacked
    ensures Step(t, s, Reject(q)).Some? && Live(Step(t, s, Reject(q)).value) == Live(s)
  {
    var s' := Step(t, s, Reject(q)).value;
    assert s'.unacked + multiset{q} == s.unacked;
    DeadLetterTargets(t, s.ready, q, s.key);
    LiveSettle(s', s, q);
  }

  /** An expiry on the retry queue hands the copy back to the worker queue. */
  lemma ExpireKeepsLive(t: Topology, s: Net, q: string)
    requires RetryWiring(t)
    requires q in s.ready && HasTtl(t, q)
    ensures Step(t, s, Expire(q)).Some? && Live(Step(t, s, Expire(q)).value) == Live(s)
  {
    var s' := Step(t, s, Expire(q)).value;
    assert q == RetryQueue;
    DeadLetterTargets(t, s.ready - multiset{q}, q, s.key);
    assert s'.ready + multiset{RetryQueue} == s.ready + multiset{WorkerQueue, ArchiveQueue};
    LiveExpire(s', s);
  }

  /** Proof helper: the three queue names differ (they differ in length). */
  lemma QueueNamesDistinct()
    ensures WorkerQueue != RetryQueue && WorkerQueue != ArchiveQueue && RetryQueue != ArchiveQueue
  {
    assert |WorkerQueue| == 22 && |RetryQueue| == 27 && |ArchiveQueue| == 23;
  }

  /** Proof helper: a rejected copy dead-lettered as the wiring says keeps the live count. */
  lemma LiveSettle(s': Net, s: Net, q: string)
    requires s'.unacked + multiset{q} == s.unacked
    requires s'.ready == if q == WorkerQueue then s.ready + multiset{RetryQueue}
                         else if q == RetryQueue then s.ready + multiset{WorkerQueue, ArchiveQueue}
                         else s.ready
    ensures Live(s') == Live(s)
  {
    QueueNamesDistinct();
    assert s'.unacked[q] + 1 == s.unacked[q];
  }

  /** Proof helper: an expired retry copy republished to the worker and archive queues keeps the live count. */
  lemma LiveExpire(s': Net, s: Net)
    requires s'.ready + multiset{RetryQueue} == s.ready + multiset{WorkerQueue, ArchiveQueue}
    requires s'.unacked == s.unacked
    ensures Live(s') == Live(s)
  {
    QueueNamesDistinct();
    var l, r := s'.ready + multiset{RetryQueue}, s.ready + multiset{WorkerQueue, ArchiveQueue};
    assert l[RetryQueue] == r[RetryQueue] && l[WorkerQueue] == r[WorkerQueue];
  }

  /** Proof helper: a copy moving from ready to unacked on the same queue leaves the live count alone. */
  lemma LiveMove(s': Net, s: Net, q: string)
    requires s'.ready + multiset{q} == s.ready && s'.unacked == s.unacked + multiset{q}
    ensures Live(s') == Live(s)
  {
    QueueNamesDistinct();
    assert s'.ready[q] + 1 == s.ready[q];
  }

  /**
   * A message that is never acknowledged never reaches a terminal state: along
   * any run without acknowledgements or new publishes, its live copies stay
   * as many as they were.
   */
  lemma {:induction false} RunKeepsLive(t: Topology, s: Net, es: seq<Event>)
    requires RetryWiring(t)
    requires forall i :: 0 <= i < |es| ==> !es[i].Ack? && !es[i].Publish?
    requires Run(t, s, es).Some?
    ensures Live(Run(t, s, es).value) == Live(s)
    decreases |es|
  {
    if es != [] {
      StepKeepsLive(t, s, es[0]);
      var s1 := Step(t, s, es[0]).value;
      RunKeepsLive(t, s1, es[1..]);
    }
  }
}

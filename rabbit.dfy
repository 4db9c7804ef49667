/**
 * The broker topology that `initRabbit` (main.go) declares, and how its
 * exchanges route a message (section 3.1.3 of the AMQP 0-9-1 specification).
 */
module Rabbit {
  import opened Wrappers

  const PrimaryExchange := "VideoParserExchange"
  const RetryExchange := "VideoParserRetryExchange"
  const WorkerQueue := "VideoParserWorkerQueue"
  const RetryQueue := "VideoParserWorkerRetryQueue"
  const ArchiveQueue := "VideoParserArchiveQueue"

  /** RabbitMQ queue arguments (extensions to AMQP 0-9-1). */
  const DeadLetterExchangeArg := "x-dead-letter-exchange"
  const MessageTtlArg := "x-message-ttl"

  /** The retry delay, in milliseconds, carried by the retry queue. */
  const RetryDelayMs := 60000

  /** Binding key threaded through every `QueueBind` call. */
  const BindingKey := "*"

  /** AMQP delivery-mode 2: the broker keeps the message on disk. */
  const Persistent := 2

  datatype ExchangeKind = Fanout | Direct

  /** A value of an `amqp.Table` argument map. */
  datatype Value = Str(s: string) | Int(i: int)

  datatype Exchange = Exchange(name: string, kind: ExchangeKind, durable: bool, autoDelete: bool,
                               internal: bool, noWait: bool, args: map<string, Value>)

  datatype Queue = Queue(name: string, durable: bool, autoDelete: bool, exclusive: bool,
                         noWait: bool, args: map<string, Value>)

  datatype Binding = Binding(queue: string, key: string, exchange: string, noWait: bool)

  /** One call on the shared channel. */
  datatype Declaration =
    | ExchangeDeclare(exchange: Exchange)
    | QueueDeclare(queue: Queue)
    | QueueBind(binding: Binding)

  /** What the broker holds: declared exchanges, queues and bindings, in declaration order. */
  datatype Topology = Topology(exchanges: seq<Exchange>, queues: seq<Queue>, bindings: seq<Binding>)

  /** An `amqp.Publishing` sent to `exchange` with `routingKey`, with a body of type `B`. */
  datatype Publishing<+B> = Publishing(exchange: string, routingKey: string, mandatory: bool,
                                       immediate: bool, deliveryMode: nat, contentType: string, body: B)

  const Empty := Topology([], [], [])

  /** Some exchange of `t` is called `name`. */
  predicate HasExchange(t: Topology, name: string) {
    name in ExchangeNames(t.exchanges)
  }

  /** Some queue of `t` is called `name`. */
  predicate HasQueue(t: Topology, name: string) {
    name in QueueNames(t.queues)
  }

  function ExchangeNames(es: seq<Exchange>): set<string> {
    set e | e in es :: e.name
  }

  function QueueNames(qs: seq<Queue>): set<string> {
    set q | q in qs :: q.name
  }

  /** The first exchange of `es` called `name` (an earlier one shadows a later one: `FindExchangeAppend`). */
  function FindExchange(es: seq<Exchange>, name: string): (r: Option<Exchange>)
    ensures r.Some? ==> r.value in es && r.value.name == name
    ensures r.None? <==> name !in ExchangeNames(es)
  {
    if es == [] then None
    else if es[0].name == name then Some(es[0])
    else
      var r := FindExchange(es[1..], name);
      assert forall e :: e in es && e != es[0] ==> e in es[1..];
      r
  }

  /** The first queue of `qs` called `name` (an earlier one shadows a later one: `FindQueueAppend`). */
  function FindQueue(qs: seq<Queue>, name: string): (r: Option<Queue>)
    ensures r.Some? ==> r.value in qs && r.value.name == name
    ensures r.None? <==> name !in QueueNames(qs)
  {
    if qs == [] then None
    else if qs[0].name == name then Some(qs[0])
    else
      var r := FindQueue(qs[1..], name);
      assert forall q :: q in qs && q != qs[0] ==> q in qs[1..];
      r
  }

  /** Looking up in `a + b` finds the match in `a` when there is one, and searches `b` otherwise. */
  lemma {:induction false} FindExchangeAppend(a: seq<Exchange>, b: seq<Exchange>, name: string)
    ensures FindExchange(a + b, name) ==
      if FindExchange(a, name).Some? then FindExchange(a, name) else FindExchange(b, name)
    decreases |a|
  {
    if a == [] {
      assert a + b == b;
    } else {
      assert (a + b)[0] == a[0] && (a + b)[1..] == a[1..] + b;
      if a[0].name != name {
        FindExchangeAppend(a[1..], b, name);
      }
    }
  }

  lemma {:induction false} FindQueueAppend(a: seq<Queue>, b: seq<Queue>, name: string)
    ensures FindQueue(a + b, name) == if FindQueue(a, name).Some? then FindQueue(a, name) else FindQueue(b, name)
    decreases |a|
  {
    if a == [] {
      assert a + b == b;
    } else {
      assert (a + b)[0] == a[0] && (a + b)[1..] == a[1..] + b;
      if a[0].name != name {
        FindQueueAppend(a[1..], b, name);
      }
    }
  }

  /** `t'` keeps every entity and binding of `t`, in the same order. */
  predicate Extends(t: Topology, t': Topology) {
    t.exchanges <= t'.exchanges && t.queues <= t'.queues && t.bindings <= t'.bindings
  }

  /** Everything `t'` holds beyond `t` is what declaration `d` declares. */
  predicate AddsOnly(t: Topology, t': Topology, d: Declaration) {
    && (forall x :: x in t'.exchanges ==> x in t.exchanges || d == ExchangeDeclare(x))
    && (forall q :: q in t'.queues ==> q in t.queues || d == QueueDeclare(q))
    && (forall b :: b in t'.bindings ==> b in t.bindings || d == QueueBind(b))
  }

  /**
   * The broker's answer to declaration `d`: the new state, or `None` when the
   * broker refuses it and the channel call returns an error. Redeclaring an
   * entity with exactly the parameters it has changes nothing; redeclaring a
   * name with other parameters is refused (RabbitMQ's PRECONDITION_FAILED).
   * A binding is refused unless its exchange and its queue exist; a binding
   * that already exists is kept as it is.
   */
  function Declare(t: Topology, d: Declaration): (r: Option<Topology>)
    ensures r.Some? ==> Extends(t, r.value) && AddsOnly(t, r.value, d)
  {
    match d
    case ExchangeDeclare(e) =>
      (match FindExchange(t.exchanges, e.name)
       case None => Some(t.(exchanges := t.exchanges + [e]))
       case Some(x) => if x == e then Some(t) else None)
    case QueueDeclare(q) =>
      (match FindQueue(t.queues, q.name)
       case None => Some(t.(queues := t.queues + [q]))
       case Some(x) => if x == q then Some(t) else None)
    case QueueBind(b) =>
      if !HasExchange(t, b.exchange) || !HasQueue(t, b.queue) then None
      else if b in t.bindings then Some(t)
      else Some(t.(bindings := t.bindings + [b]))
  }

  /**
   * The broker refuses a declaration exactly when it conflicts with what it
   * holds: an entity whose name is taken by one with other parameters (kind,
   * flags or arguments), or a binding whose exchange or queue is missing.
   * Otherwise the declared entity or binding is present afterwards.
   */
  lemma DeclareRefusedIff(t: Topology, d: Declaration)
    ensures d.ExchangeDeclare? ==>
      (Declare(t, d).None? <==>
         FindExchange(t.exchanges, d.exchange.name).Some? && FindExchange(t.exchanges, d.exchange.name).value != d.exchange)
    ensures d.QueueDeclare? ==>
      (Declare(t, d).None? <==>
         FindQueue(t.queues, d.queue.name).Some? && FindQueue(t.queues, d.queue.name).value != d.queue)
    ensures d.QueueBind? ==>
      (Declare(t, d).None? <==> !HasExchange(t, d.binding.exchange) || !HasQueue(t, d.binding.queue))
    ensures Declare(t, d).Some? ==> Present(Declare(t, d).value, d)
  {
    if Declare(t, d).Some? {
      DeclareMakesPresent(t, d);
    }
  }

  /** The state after the declarations `ds`, in order, all succeeded; `None` once one is refused. */
  function DeclareAll(t: Topology, ds: seq<Declaration>): Option<Topology>
    decreases |ds|
  {
    if ds == [] then Some(t)
    else match DeclareAll(t, ds[..|ds| - 1])
      case None => None
      case Some(m) => Declare(m, ds[|ds| - 1])
  }

  /** The entities and bindings `initRabbit` declares. */
  const PrimaryExchangeDecl := Exchange(PrimaryExchange, Fanout, true, false, false, false, map[])
  const RetryExchangeDecl := Exchange(RetryExchange, Fanout, true, false, false, false, map[])
  const WorkerQueueDecl :=
    Queue(WorkerQueue, true, false, false, false, map[DeadLetterExchangeArg := Str(RetryExchange)])
  const RetryQueueDecl :=
    Queue(RetryQueue, true, false, false, false,
          map[DeadLetterExchangeArg := Str(PrimaryExchange), MessageTtlArg := Int(RetryDelayMs)])
  const ArchiveQueueDecl := Queue(ArchiveQueue, true, false, false, false, map[])
  const WorkerBinding := Binding(WorkerQueue, BindingKey, PrimaryExchange, false)
  const ArchiveBinding := Binding(ArchiveQueue, BindingKey, PrimaryExchange, false)
  const RetryBinding := Binding(RetryQueue, BindingKey, RetryExchange, false)

  /** The eight declarations of `initRabbit`, in the order they are issued. */
  function Plan(): (p: seq<Declaration>)
    ensures |p| == 8
  {
    [ ExchangeDeclare(PrimaryExchangeDecl), ExchangeDeclare(RetryExchangeDecl),
      QueueDeclare(WorkerQueueDecl), QueueDeclare(RetryQueueDecl), QueueDeclare(ArchiveQueueDecl),
      QueueBind(WorkerBinding), QueueBind(ArchiveBinding), QueueBind(RetryBinding) ]
  }

  /** The topology of the plan: two exchanges, three queues, three bindings, in declaration order. */
  function Declared(): Topology {
    Topology([PrimaryExchangeDecl, RetryExchangeDecl], [WorkerQueueDecl, RetryQueueDecl, ArchiveQueueDecl],
             [WorkerBinding, ArchiveBinding, RetryBinding])
  }

  /**
   * One channel call of `initRabbit`: it is recorded in `calls`; it returns an
   * error when step number `|calls|` is in `failing` (the connection breaks)
   * or when the broker refuses it, and otherwise the broker applies it.
   */
  method Attempt(calls: seq<Declaration>, t: Topology, d: Declaration, failing: set<nat>)
    returns (err: Option<nat>, calls': seq<Declaration>, t': Topology)
    ensures calls' == calls + [d]
    ensures err.Some? <==> |calls| in failing || Declare(t, d).None?
    ensures err.Some? ==> err.value == |calls| && t' == t
    ensures err.None? ==> Declare(t, d) == Some(t')
  {
    calls' := calls + [d];
    if |calls| in failing {
      return Some(|calls|), calls', t;
    }
    match Declare(t, d)
    case None =>
      err, t' := Some(|calls|), t;
    case Some(next) =>
      err, t' := None, next;
  }

  /** Declaring one more planned step extends the state by that step. */
  lemma DeclareAllStep(t: Topology, ds: seq<Declaration>, k: nat)
    requires k < |ds|
    ensures DeclareAll(t, ds[..k + 1]) ==
      match DeclareAll(t, ds[..k]) case None => None case Some(m) => Declare(m, ds[k])
  {
    assert ds[..k + 1][..k] == ds[..k];
  }

  /** A run that succeeds succeeded on each of its prefixes. */
  lemma {:induction false} DeclareAllPrefix(t: Topology, ds: seq<Declaration>, k: nat)
    requires k <= |ds| && DeclareAll(t, ds).Some?
    ensures DeclareAll(t, ds[..k]).Some?
    decreases |ds|
  {
    if k < |ds| {
      var init := ds[..|ds| - 1];
      DeclareAllPrefix(t, init, k);
      assert init[..k] == ds[..k];
    } else {
      assert ds[..k] == ds;
    }
  }

  /** A step that breaks or is refused makes the whole plan fail. */
  lemma FailedStepStops(broker: Topology, plan: seq<Declaration>, failing: set<nat>, i: nat, t: Topology)
    requires i < |plan| && DeclareAll(broker, plan[..i]) == Some(t)
    requires i in failing || Declare(t, plan[i]).None?
    ensures !((forall k :: 0 <= k < |plan| ==> k !in failing) && DeclareAll(broker, plan).Some?)
  {
    if i !in failing {
      DeclareAllStep(broker, plan, i);
      if DeclareAll(broker, plan).Some? {
        DeclareAllPrefix(broker, plan, i + 1);
      }
    }
  }

  /**
   * Issues `plan` in order on the shared channel, starting from the broker
   * state `broker`: the first declaration that fails ends the run, and none
   * after it is attempted. `err` is the index of the failing step.
   */
  method IssueAll(broker: Topology, plan: seq<Declaration>, failing: set<nat>)
    returns (err: Option<nat>, calls: seq<Declaration>, topology: Topology)
    ensures err.None? <==> (forall k :: 0 <= k < |plan| ==> k !in failing) && DeclareAll(broker, plan).Some?
    ensures err.None? ==> calls == plan && DeclareAll(broker, plan) == Some(topology)
    ensures err.Some? ==>
      && err.value < |plan| && calls == plan[..err.value + 1]
      && (forall k :: 0 <= k < err.value ==> k !in failing)
      && DeclareAll(broker, plan[..err.value]) == Some(topology)
      && (err.value in failing || Declare(topology, plan[err.value]).None?)
  {
    err, calls, topology := None, [], broker;
    var i := 0;
    while i < |plan|
      invariant 0 <= i <= |plan|
      invariant err.None?
      invariant calls == plan[..i]
      invariant DeclareAll(broker, plan[..i]) == Some(topology)
      invariant forall k :: 0 <= k < i ==> k !in failing
    {
      var before := topology;
      assert |calls| == i;
      err, calls, topology := Attempt(calls, topology, plan[i], failing);
      assert calls == plan[..i + 1] by {
        assert plan[..i + 1] == plan[..i] + [plan[i]];
      }
      if err.Some? {
        FailedStepStops(broker, plan, failing, i, before);
        return;
      }
      assert i !in failing;
      assert forall k :: 0 <= k < i + 1 ==> k !in failing by {
        forall k | 0 <= k < i + 1 ensures k !in failing {
          if k < i { assert k !in failing; }
        }
      }
      assert DeclareAll(broker, plan[..i + 1]) == Some(topology) by {
        DeclareAllStep(broker, plan, i);
      }
      i := i + 1;
    }
    assert plan[..|plan|] == plan;
  }

  /**
   * `initRabbit` against the broker state `broker`: the eight declarations of
   * `Plan()`, fail-fast. On an empty broker, and on a broker that already
   * holds the topology (a restart), only a broken call can make it fail, and
   * success leaves exactly the declared topology.
   */
  method InitRabbit(broker: Topology, failing: set<nat>)
    returns (err: Option<nat>, calls: seq<Declaration>, topology: Topology)
    ensures err.None? <==> (forall k :: 0 <= k < 8 ==> k !in failing) && DeclareAll(broker, Plan()).Some?
    ensures err.None? ==> calls == Plan() && DeclareAll(broker, Plan()) == Some(topology)
    ensures err.Some? ==>
      && err.value < 8 && calls == Plan()[..err.value + 1]
      && (forall k :: 0 <= k < err.value ==> k !in failing)
      && DeclareAll(broker, Plan()[..err.value]) == Some(topology)
      && (err.value in failing || Declare(topology, Plan()[err.value]).None?)
    ensures broker == Empty || broker == Declared() ==>
      && (err.None? <==> forall k :: 0 <= k < 8 ==> k !in failing)
      && (err.Some? ==> err.value in failing)
      && (err.None? ==> topology == Declared())
  {
    err, calls, topology := IssueAll(broker, Plan(), failing);
    if broker == Empty {
      DeclaredTopology();
      if err.Some? {
        PlanPrefix(err.value);
        PlanStep(err.value);
      }
    } else if broker == Declared() {
      InitRabbitRerun(8);
      assert Plan()[..8] == Plan();
      if err.Some? {
        InitRabbitRerun(err.value);
        DeclaredHasPlan();
        assert Plan()[err.value] in Plan();
      }
    }
  }

  /** Declarations run in dependency order: exchanges, then queues, then bindings. */
  function Rank(d: Declaration): nat {
    match d
    case ExchangeDeclare(_) => 0
    case QueueDeclare(_) => 1
    case QueueBind(_) => 2
  }

  /**
   * The plan declares exchanges before queues and queues before bindings, and
   * every binding names an exchange and a queue declared earlier in the plan.
   */
  lemma PlanInDependencyOrder()
    ensures forall i, j :: 0 <= i < j < |Plan()| ==> Rank(Plan()[i]) <= Rank(Plan()[j])
    ensures forall j :: 0 <= j < |Plan()| && Plan()[j].QueueBind? ==>
      && DeclareAll(Empty, Plan()[..j]).Some?
      && HasExchange(DeclareAll(Empty, Plan()[..j]).value, Plan()[j].binding.exchange)
      && HasQueue(DeclareAll(Empty, Plan()[..j]).value, Plan()[j].binding.queue)
  {
    var p := Plan();
    assert forall i :: 0 <= i < |p| ==> Rank(p[i]) == if i < 2 then 0 else if i < 5 then 1 else 2;
    forall j | 0 <= j < |p| && p[j].QueueBind?
      ensures DeclareAll(Empty, p[..j]).Some?
      ensures HasExchange(DeclareAll(Empty, p[..j]).value, p[j].binding.exchange)
      ensures HasQueue(DeclareAll(Empty, p[..j]).value, p[j].binding.queue)
    {
      PlanPrefix(j);
      var t := StateAfter(j);
      assert t.exchanges == [PrimaryExchangeDecl, RetryExchangeDecl];
      assert t.queues == [WorkerQueueDecl, RetryQueueDecl, ArchiveQueueDecl];
    }
  }

  /** The order is needed: issued on an empty broker, the first binding alone is refused. */
  lemma BindingBeforeQueueRefused()
    ensures DeclareAll(Empty, [Plan()[5]]).None?
  {
    assert [Plan()[5]][..0] == [];
    assert WorkerQueue !in QueueNames([]);
  }

  /** The number of elements of a group of `n` declarations that starts at step `lo` done after `k` steps. */
  function Done(k: nat, lo: nat, n: nat): (r: nat)
    ensures r <= n
  {
    if k <= lo then 0 else if k - lo >= n then n else k - lo
  }

  /** The broker's state after the first `k` steps of the plan, on an empty broker. */
  function StateAfter(k: nat): Topology {
    Topology([PrimaryExchangeDecl, RetryExchangeDecl][..Done(k, 0, 2)],
             [WorkerQueueDecl, RetryQueueDecl, ArchiveQueueDecl][..Done(k, 2, 3)],
             [WorkerBinding, ArchiveBinding, RetryBinding][..Done(k, 5, 3)])
  }

  /** Step `k` of the plan is accepted and adds exactly its own entity: no name is declared twice. */
  lemma PlanStep(k: nat)
    requires k < |Plan()|
    ensures Declare(StateAfter(k), Plan()[k]) == Some(StateAfter(k + 1))
  {
    if k < 2 {
      ExchangeSteps(k);
    } else if k < 5 {
      QueueSteps(k);
    } else {
      BindingSteps(k);
    }
  }

  /** The two exchange declarations: neither name is taken yet. */
  lemma ExchangeSteps(k: nat)
    requires k < 2
    ensures Declare(StateAfter(k), Plan()[k]) == Some(StateAfter(k + 1))
  {
    var t := StateAfter(k);
    if k == 0 {
      assert t.exchanges == [] && FindExchange(t.exchanges, PrimaryExchange).None?;
      assert t.exchanges + [PrimaryExchangeDecl] == [PrimaryExchangeDecl];
      assert StateAfter(1) == t.(exchanges := [PrimaryExchangeDecl]);
    } else {
      assert t.exchanges == [PrimaryExchangeDecl] && t.exchanges[1..] == [];
      assert |PrimaryExchange| != |RetryExchange|;
      assert FindExchange(t.exchanges, RetryExchange).None?;
      assert StateAfter(2) == t.(exchanges := t.exchanges + [RetryExchangeDecl]);
    }
  }

  /** The three queue declarations: none of the names is taken yet. */
  lemma QueueSteps(k: nat)
    requires 2 <= k < 5
    ensures Declare(StateAfter(k), Plan()[k]) == Some(StateAfter(k + 1))
  {
    var t := StateAfter(k);
    assert t.exchanges == [PrimaryExchangeDecl, RetryExchangeDecl];
    if k == 2 {
      assert t.queues == [] && FindQueue(t.queues, WorkerQueue).None?;
      assert Plan()[2] == QueueDeclare(WorkerQueueDecl) && t.queues + [WorkerQueueDecl] == [WorkerQueueDecl];
      assert StateAfter(3) == t.(queues := [WorkerQueueDecl]);
    } else if k == 3 {
      assert t.queues == [WorkerQueueDecl] && t.queues[1..] == [];
      assert |WorkerQueue| != |RetryQueue|;
      assert FindQueue(t.queues, RetryQueue).None?;
      assert StateAfter(4) == t.(queues := t.queues + [RetryQueueDecl]);
    } else {
      assert t.queues == [WorkerQueueDecl, RetryQueueDecl];
      assert t.queues[1..] == [RetryQueueDecl] && t.queues[1..][1..] == [];
      assert |WorkerQueue| != |ArchiveQueue| && |RetryQueue| != |ArchiveQueue|;
      assert FindQueue(t.queues, ArchiveQueue).None?;
      assert StateAfter(5) == t.(queues := t.queues + [ArchiveQueueDecl]);
    }
  }

  /** The three bindings: their exchanges and queues exist, and none is bound yet. */
  lemma BindingSteps(k: nat)
    requires 5 <= k < 8
    ensures Declare(StateAfter(k), Plan()[k]) == Some(StateAfter(k + 1))
  {
    var t := StateAfter(k);
    assert t.exchanges == [PrimaryExchangeDecl, RetryExchangeDecl];
    assert t.queues == [WorkerQueueDecl, RetryQueueDecl, ArchiveQueueDecl];
    assert PrimaryExchangeDecl in t.exchanges && RetryExchangeDecl in t.exchanges;
    assert WorkerQueueDecl in t.queues && RetryQueueDecl in t.queues && ArchiveQueueDecl in t.queues;
    var bs := [WorkerBinding, ArchiveBinding, RetryBinding];
    assert t.bindings == bs[..k - 5] && StateAfter(k + 1).bindings == bs[..k - 4];
    assert bs[..k - 4] == bs[..k - 5] + [bs[k - 5]];
    assert Plan()[k] == QueueBind(bs[k - 5]);
    assert bs[k - 5] !in bs[..k - 5];
  }

  /** Each prefix of the plan is accepted on an empty broker and leaves it in `StateAfter`. */
  lemma {:induction false} PlanPrefix(k: nat)
    requires k <= |Plan()|
    ensures DeclareAll(Empty, Plan()[..k]) == Some(StateAfter(k))
  {
    if k == 0 {
      assert Plan()[..0] == [];
    } else {
      PlanPrefix(k - 1);
      DeclareAllStep(Empty, Plan(), k - 1);
      PlanStep(k - 1);
    }
  }

  /** On an empty broker the plan is accepted and declares exactly `Declared()`. */
  lemma DeclaredTopology()
    ensures DeclareAll(Empty, Plan()) == Some(Declared())
  {
    PlanPrefix(8);
    assert Plan()[..8] == Plan();
    WholePlan();
  }

  /** Proof helper for `DeclaredTopology`: the whole plan leaves `Declared()`. */
  lemma WholePlan()
    ensures StateAfter(|Plan()|) == Declared()
  {
    assert Done(8, 0, 2) == 2 && Done(8, 2, 3) == 3 && Done(8, 5, 3) == 3;
  }

  /** Declaration `d` is accepted by `t` and changes nothing: its entity (the same) or binding is already there. */
  predicate Present(t: Topology, d: Declaration) {
    match d
    case ExchangeDeclare(e) => FindExchange(t.exchanges, e.name) == Some(e)
    case QueueDeclare(q) => FindQueue(t.queues, q.name) == Some(q)
    case QueueBind(b) => b in t.bindings && HasExchange(t, b.exchange) && HasQueue(t, b.queue)
  }

  /** A declaration only adds: what was present stays present. */
  lemma ExtendsKeepsPresent(t: Topology, t': Topology, d: Declaration)
    requires Extends(t, t') && Present(t, d)
    ensures Present(t', d)
  {
    match d
    case ExchangeDeclare(e) =>
      assert t'.exchanges == t.exchanges + t'.exchanges[|t.exchanges|..];
      FindExchangeAppend(t.exchanges, t'.exchanges[|t.exchanges|..], e.name);
    case QueueDeclare(q) =>
      assert t'.queues == t.queues + t'.queues[|t.queues|..];
      FindQueueAppend(t.queues, t'.queues[|t.queues|..], q.name);
    case QueueBind(b) =>
      var x :| x in t.exchanges && x.name == b.exchange;
      var y :| y in t.queues && y.name == b.queue;
      assert x in t'.exchanges && y in t'.queues;
  }

  /** An accepted declaration is present afterwards. */
  lemma DeclareMakesPresent(t: Topology, d: Declaration)
    requires Declare(t, d).Some?
    ensures Present(Declare(t, d).value, d)
  {
    var t' := Declare(t, d).value;
    match d
    case ExchangeDeclare(e) =>
      if FindExchange(t.exchanges, e.name).None? {
        FindExchangeAppend(t.exchanges, [e], e.name);
      }
    case QueueDeclare(q) =>
      if FindQueue(t.queues, q.name).None? {
        FindQueueAppend(t.queues, [q], q.name);
      }
    case QueueBind(b) =>
      var x :| x in t.exchanges && x.name == b.exchange;
      var y :| y in t.queues && y.name == b.queue;
      assert x in t'.exchanges && y in t'.queues;
  }

  /** After an accepted run of declarations, each of them is present. */
  lemma {:induction false} DeclareAllMakesPresent(t: Topology, ds: seq<Declaration>)
    requires DeclareAll(t, ds).Some?
    ensures Extends(t, DeclareAll(t, ds).value)
    ensures forall d :: d in ds ==> Present(DeclareAll(t, ds).value, d)
    decreases |ds|
  {
    if ds != [] {
      var init := ds[..|ds| - 1];
      var last := ds[|ds| - 1];
      DeclareAllMakesPresent(t, init);
      var mid := DeclareAll(t, init).value;
      var t' := Declare(mid, last).value;
      DeclareMakesPresent(mid, last);
      forall d | d in ds ensures Present(t', d) {
        if d != last {
          assert d in init by {
            var k :| 0 <= k < |ds| && ds[k] == d;
            assert k < |ds| - 1 && init[k] == d;
          }
          ExtendsKeepsPresent(mid, t', d);
        }
      }
    }
  }

  /** Declarations that are all present are accepted and change nothing. */
  lemma {:induction false} DeclareAllNoOp(t: Topology, ds: seq<Declaration>)
    requires forall d :: d in ds ==> Present(t, d)
    ensures DeclareAll(t, ds) == Some(t)
    decreases |ds|
  {
    if ds != [] {
      var init := ds[..|ds| - 1];
      forall d | d in init ensures Present(t, d) {
        var k :| 0 <= k < |init| && init[k] == d;
        assert ds[k] == d;
      }
      DeclareAllNoOp(t, init);
      assert Present(t, ds[|ds| - 1]);
    }
  }

  /**
   * Declaring is idempotent: running accepted declarations a second time on
   * the state they produced is accepted and changes nothing.
   */
  lemma DeclareAllIdempotent(t: Topology, ds: seq<Declaration>)
    requires DeclareAll(t, ds).Some?
    ensures DeclareAll(DeclareAll(t, ds).value, ds) == DeclareAll(t, ds)
  {
    DeclareAllMakesPresent(t, ds);
    DeclareAllNoOp(DeclareAll(t, ds).value, ds);
  }

  /** Every declaration of the plan is present in the declared topology. */
  lemma DeclaredHasPlan()
    ensures forall d :: d in Plan() ==> Present(Declared(), d)
  {
    DeclaredTopology();
    DeclareAllMakesPresent(Empty, Plan());
  }

  /**
   * A restart of `initRabbit` against a broker that already holds the
   * topology: every prefix of the plan is accepted and leaves it as it is.
   */
  lemma InitRabbitRerun(k: nat)
    requires k <= |Plan()|
    ensures DeclareAll(Declared(), Plan()[..k]) == Some(Declared())
  {
    DeclaredHasPlan();
    forall d | d in Plan()[..k] ensures Present(Declared(), d) {
      var i :| 0 <= i < k && Plan()[..k][i] == d;
      assert Plan()[i] == d;
    }
    DeclareAllNoOp(Declared(), Plan()[..k]);
  }

  /**
   * A broker holding the primary exchange with other parameters refuses the
   * first declaration, so `initRabbit` fails at step 0.
   */
  lemma ConflictingRedeclarationRefused(e: Exchange, t: Topology)
    requires e.name == PrimaryExchange && e != PrimaryExchangeDecl
    requires FindExchange(t.exchanges, PrimaryExchange) == Some(e)
    ensures Declare(t, Plan()[0]).None?
    ensures DeclareAll(t, Plan()).None?
  {
    DeclareAllStep(t, Plan(), 0);
    assert Plan()[..0] == [];
    if DeclareAll(t, Plan()).Some? {
      DeclareAllPrefix(t, Plan(), 1);
    }
  }

  /** The exchange a queue forwards rejected or expired messages to (`x-dead-letter-exchange`). */
  function DeadLetterExchange(q: Queue): Option<string> {
    if DeadLetterExchangeArg in q.args && q.args[DeadLetterExchangeArg].Str?
    then Some(q.args[DeadLetterExchangeArg].s) else None
  }

  /** The per-queue message time-to-live in milliseconds (`x-message-ttl`). */
  function MessageTtl(q: Queue): Option<int> {
    if MessageTtlArg in q.args && q.args[MessageTtlArg].Int? then Some(q.args[MessageTtlArg].i) else None
  }

  /**
   * The queues a message sent to `exchange` with `key` is copied to. A fanout
   * exchange copies it to every queue bound to it and ignores the key; a
   * direct exchange only to the queues bound with exactly that key. The set
   * is empty for an exchange that does not exist: the broker refuses a
   * publish there (a channel error, see `Retry.Step`), and drops a
   * dead-lettered message there.
   */
  function Route(t: Topology, exchange: string, key: string): (r: set<string>)
    ensures r <= set b | b in t.bindings && b.exchange == exchange :: b.queue
    ensures !HasExchange(t, exchange) ==> r == {}
    ensures FindExchange(t.exchanges, exchange).Some? && FindExchange(t.exchanges, exchange).value.kind == Fanout ==>
      forall b :: b in t.bindings && b.exchange == exchange ==> b.queue in r
  {
    match FindExchange(t.exchanges, exchange)
    case None => {}
    case Some(e) =>
      set b | b in t.bindings && b.exchange == exchange && (e.kind == Fanout || b.key == key) :: b.queue
  }

  /** A fanout exchange routes the same way whatever the routing key. */
  lemma FanoutIgnoresKey(t: Topology, exchange: string, k1: string, k2: string)
    requires FindExchange(t.exchanges, exchange).Some?
    requires FindExchange(t.exchanges, exchange).value.kind == Fanout
    ensures Route(t, exchange, k1) == Route(t, exchange, k2)
  {
  }

  /**
   * On the declared topology the primary exchange reaches exactly the worker
   * and archive queues, the retry exchange exactly the retry queue, whatever
   * the key, and no other exchange exists.
   */
  lemma DeclaredRoutes(exchange: string, key: string)
    ensures Route(Declared(), PrimaryExchange, key) == {WorkerQueue, ArchiveQueue}
    ensures Route(Declared(), RetryExchange, key) == {RetryQueue}
    ensures exchange != PrimaryExchange && exchange != RetryExchange ==> !HasExchange(Declared(), exchange)
  {
    var t := Declared();
    assert FindExchange(t.exchanges, PrimaryExchange) == Some(PrimaryExchangeDecl);
    assert t.exchanges[1..] == [RetryExchangeDecl];
    assert FindExchange(t.exchanges, RetryExchange) == Some(RetryExchangeDecl);
    assert Route(t, PrimaryExchange, key) == {WorkerQueue, ArchiveQueue} by {
      assert WorkerBinding in t.bindings && ArchiveBinding in t.bindings;
    }
    assert Route(t, RetryExchange, key) == {RetryQueue} by {
      assert RetryBinding in t.bindings;
    }
    if exchange != PrimaryExchange && exchange != RetryExchange {
      assert ExchangeNames(t.exchanges) == {PrimaryExchange, RetryExchange};
    }
  }

  /**
   * The declared entities: both exchanges are durable fanouts; all three queues
   * are durable, kept when unused and shared; the names are the five declared.
   */
  lemma DeclaredEntities()
    ensures forall e :: e in Declared().exchanges ==> e.kind == Fanout && e.durable && !e.autoDelete && !e.internal
    ensures forall q :: q in Declared().queues ==> q.durable && !q.autoDelete && !q.exclusive
    ensures ExchangeNames(Declared().exchanges) == {PrimaryExchange, RetryExchange}
    ensures QueueNames(Declared().queues) == {WorkerQueue, RetryQueue, ArchiveQueue}
  {
  }

  /** Looking a queue up by name in the declared topology. */
  lemma DeclaredFindQueue(q: string)
    ensures FindQueue(Declared().queues, q) ==
      if q == WorkerQueue then Some(WorkerQueueDecl)
      else if q == RetryQueue then Some(RetryQueueDecl)
      else if q == ArchiveQueue then Some(ArchiveQueueDecl)
      else None
  {
    var qs := Declared().queues;
    assert qs[1..] == [RetryQueueDecl, ArchiveQueueDecl];
    assert qs[1..][1..] == [ArchiveQueueDecl];
    assert qs[1..][1..][1..] == [];
  }

  /**
   * The declared queues' arguments, looked up by name: the worker queue
   * dead-letters to the retry exchange, the retry queue dead-letters to the
   * primary exchange after 60000 ms, and the archive queue has no arguments.
   */
  lemma DeclaredQueueArguments()
    ensures FindQueue(Declared().queues, WorkerQueue) == Some(WorkerQueueDecl)
    ensures FindQueue(Declared().queues, RetryQueue) == Some(RetryQueueDecl)
    ensures FindQueue(Declared().queues, ArchiveQueue) == Some(ArchiveQueueDecl)
    ensures DeadLetterExchange(WorkerQueueDecl) == Some(RetryExchange) && MessageTtl(WorkerQueueDecl) == None
    ensures DeadLetterExchange(RetryQueueDecl) == Some(PrimaryExchange) && MessageTtl(RetryQueueDecl) == Some(RetryDelayMs)
    ensures ArchiveQueueDecl.args == map[]
  {
    var t := Declared();
    assert t.queues[1..] == [RetryQueueDecl, ArchiveQueueDecl];
    assert t.queues[1..][1..] == [ArchiveQueueDecl];
  }
}

/** The packets a collection-tree node forwards: their pool, the send queue, and the threads that hold one. */
module Ctp {
  const QUEUE_SIZE := 10
  const FORWARDING_SIZE := 5

  datatype Packet = Forward(index: nat) | Beacon

  datatype Slot = Empty | Holds(packet: Packet)

  /** The queue is a ring; the pool is a stack that grows downwards. */
  datatype Queues = Queues(sendQueue: seq<Slot>, queueHead: nat, queueSize: nat,
                           packetPool: seq<Packet>, poolHead: nat, poolSize: nat)

  /** The node with its threads: the packets that receiving threads hold, and the one the sending thread does. */
  datatype Node = Node(queues: Queues, receiving: multiset<Packet>, sending: Slot)

  ghost predicate Shaped(q: Queues) {
    && |q.sendQueue| == QUEUE_SIZE && q.queueHead < QUEUE_SIZE && q.queueSize <= QUEUE_SIZE
    && |q.packetPool| == FORWARDING_SIZE && q.poolHead + q.poolSize == FORWARDING_SIZE
  }

  function Place(head: nat, k: nat): nat
    requires head < QUEUE_SIZE && k <= QUEUE_SIZE
  {
    (head + k) % QUEUE_SIZE
  }

  /** Slots are filled exactly within the queue's window. */
  ghost predicate Filled(q: Queues)
    requires Shaped(q)
  {
    && (forall k :: 0 <= k < q.queueSize ==> q.sendQueue[Place(q.queueHead, k)].Holds?)
    && (forall k :: q.queueSize <= k < QUEUE_SIZE ==> q.sendQueue[Place(q.queueHead, k)].Empty?)
  }

  /** The packets in the queue, the first to leave first. */
  ghost function Queued(q: Queues): (s: seq<Packet>)
    requires Shaped(q) && Filled(q)
    ensures |s| == q.queueSize
  {
    seq(q.queueSize, k requires 0 <= k < q.queueSize => q.sendQueue[Place(q.queueHead, k)].packet)
  }

  ghost function Pooled(q: Queues): seq<Packet>
    requires Shaped(q)
  {
    q.packetPool[q.poolHead..]
  }

  // The operations.

  function Enqueued(q: Queues, p: Packet): Queues
    requires Shaped(q)
  {
    if q.queueSize < QUEUE_SIZE
    then q.(sendQueue := q.sendQueue[Place(q.queueHead, q.queueSize) := Holds(p)], queueSize := q.queueSize + 1)
    else q
  }

  function Dequeued(q: Queues): Queues
    requires Shaped(q) && q.queueSize > 0
  {
    q.(sendQueue := q.sendQueue[q.queueHead := Empty], queueHead := (q.queueHead + 1) % QUEUE_SIZE,
       queueSize := q.queueSize - 1)
  }

  function Allocated(q: Queues): Queues
    requires Shaped(q) && q.poolSize > 0
  {
    q.(poolHead := q.poolHead + 1, poolSize := q.poolSize - 1)
  }

  function Freed(q: Queues, p: Packet): Queues
    requires Shaped(q)
  {
    if q.poolHead == 0 then q
    else q.(poolHead := q.poolHead - 1, packetPool := q.packetPool[q.poolHead - 1 := p], poolSize := q.poolSize + 1)
  }

  predicate BeaconWaits(q: Queues) {
    Holds(Beacon) in q.sendQueue
  }

  function BeaconEnqueued(q: Queues): Queues
    requires Shaped(q)
  {
    if BeaconWaits(q) then q else Enqueued(q, Beacon)
  }

  // The ring is a queue.

  lemma Wrapped(head: nat, k: nat)
    requires head < QUEUE_SIZE && k < QUEUE_SIZE
    ensures Place(head, k) == if head + k < QUEUE_SIZE then head + k else head + k - QUEUE_SIZE
    ensures k + 1 < QUEUE_SIZE ==> Place((head + 1) % QUEUE_SIZE, k) == Place(head, k + 1)
    ensures k + 1 == QUEUE_SIZE ==> Place((head + 1) % QUEUE_SIZE, k) == head
  {
  }

  lemma PlacesDiffer(head: nat, j: nat, k: nat)
    requires head < QUEUE_SIZE && j < QUEUE_SIZE && k < QUEUE_SIZE && j != k
    ensures Place(head, j) != Place(head, k)
  {
    Wrapped(head, j);
    Wrapped(head, k);
  }

  lemma EnqueueAppends(q: Queues, p: Packet)
    requires Shaped(q) && Filled(q) && q.queueSize < QUEUE_SIZE
    ensures Shaped(Enqueued(q, p)) && Filled(Enqueued(q, p)) && Queued(Enqueued(q, p)) == Queued(q) + [p]
  {
    var r := Enqueued(q, p);
    forall k | 0 <= k < QUEUE_SIZE && k != q.queueSize
      ensures r.sendQueue[Place(q.queueHead, k)] == q.sendQueue[Place(q.queueHead, k)]
    {
      PlacesDiffer(q.queueHead, k, q.queueSize);
    }
  }

  lemma DequeueRemoves(q: Queues)
    requires Shaped(q) && Filled(q) && q.queueSize > 0
    ensures Shaped(Dequeued(q)) && Filled(Dequeued(q)) && Queued(Dequeued(q)) == Queued(q)[1..]
    ensures q.sendQueue[q.queueHead] == Holds(Queued(q)[0])
  {
    var r := Dequeued(q);
    Wrapped(q.queueHead, 0);
    assert Queued(q)[0] == q.sendQueue[Place(q.queueHead, 0)].packet;
    forall k | 0 <= k < QUEUE_SIZE - 1
      ensures r.sendQueue[Place(r.queueHead, k)] == q.sendQueue[Place(q.queueHead, k + 1)]
    {
      Wrapped(q.queueHead, k);
      PlacesDiffer(q.queueHead, 0, k + 1);
    }
    Wrapped(q.queueHead, QUEUE_SIZE - 1);
  }

  /** The search through all slots finds the beacon exactly if it is queued. */
  lemma BeaconFound(q: Queues)
    requires Shaped(q) && Filled(q)
    ensures BeaconWaits(q) <==> Beacon in Queued(q)
  {
    if BeaconWaits(q) {
      var i :| 0 <= i < QUEUE_SIZE && q.sendQueue[i] == Holds(Beacon);
      var k := if i >= q.queueHead then i - q.queueHead else i - q.queueHead + QUEUE_SIZE;
      Wrapped(q.queueHead, k);
      assert Place(q.queueHead, k) == i;
      assert Queued(q)[k] == Beacon;
    }
    if Beacon in Queued(q) {
      var k :| 0 <= k < q.queueSize && Queued(q)[k] == Beacon;
      assert q.sendQueue[Place(q.queueHead, k)] == Holds(Beacon);
    }
  }

  // Every packet is in one place.

  ghost function Forwards(n: nat): multiset<Packet> {
    if n == 0 then multiset{} else Forwards(n - 1) + multiset{Forward(n - 1)}
  }

  ghost function Held(s: Slot): multiset<Packet> {
    if s.Empty? then multiset{} else multiset{s.packet}
  }

  /** Everything outside the queue. */
  ghost function Outside(n: Node): multiset<Packet>
    requires Shaped(n.queues)
  {
    multiset(Pooled(n.queues)) + n.receiving + Held(n.sending)
  }

  /** Pool, queue and hands hold the forwarding packets, each once, and at most one beacon, which is queued. */
  ghost predicate Conserved(n: Node) {
    && Shaped(n.queues) && Filled(n.queues)
    && Beacon !in Outside(n)
    && multiset(Queued(n.queues)) + Outside(n) ==
         Forwards(FORWARDING_SIZE) + if Beacon in Queued(n.queues) then multiset{Beacon} else multiset{}
  }

  lemma {:induction false} ForwardsCounted(n: nat)
    ensures |Forwards(n)| == n && Beacon !in Forwards(n)
    ensures forall i: nat :: Forwards(n)[Forward(i)] == if i < n then 1 else 0
  {
    if n > 0 {
      ForwardsCounted(n - 1);
    }
  }

  /** What conservation means for one packet: its places, counted together, are one. */
  lemma OnePlace(n: Node, i: nat)
    requires Conserved(n) && i < FORWARDING_SIZE
    ensures multiset(Queued(n.queues))[Forward(i)] + multiset(Pooled(n.queues))[Forward(i)]
          + n.receiving[Forward(i)] + Held(n.sending)[Forward(i)] == 1
    ensures multiset(Queued(n.queues))[Beacon] <= 1
  {
    ForwardsCounted(FORWARDING_SIZE);
    var total := multiset(Queued(n.queues)) + Outside(n);
    assert total[Forward(i)] == 1;
    assert total[Beacon] <= 1;
  }

  /** There is always room for what is not queued. */
  lemma Room(n: Node)
    requires Conserved(n)
    ensures |Outside(n)| <= FORWARDING_SIZE
    ensures n.queues.queueSize + |Outside(n)| <= FORWARDING_SIZE + 1
    ensures Beacon !in Queued(n.queues) ==> n.queues.queueSize + |Outside(n)| == FORWARDING_SIZE
  {
    ForwardsCounted(FORWARDING_SIZE);
    assert |multiset(Queued(n.queues))| == n.queues.queueSize;
    assert |multiset(Queued(n.queues)) + Outside(n)| == n.queues.queueSize + |Outside(n)|;
    if Beacon in Queued(n.queues) {
      assert n.queues.queueSize > 0;
    }
  }

  // The steps of the threads, each under its mutex.

  datatype Step =
    | Allocate
    | Enqueue(packet: Packet)
    | Send(failed: bool)
    | Free
    | EnqueueBeacon

  predicate Possible(n: Node, step: Step) {
    match step
    case Allocate => true
    case Enqueue(p) => p in n.receiving
    case Send(_) => n.sending.Empty? && n.queues.queueSize > 0
    case Free => n.sending.Holds?
    case EnqueueBeacon => true
  }

  /** A packet that cannot be sent goes back to the queue; one that was sent is in the hand of the thread, and a
      beacon is forgotten. */
  ghost function Sent(n: Node, failed: bool): Node
    requires Shaped(n.queues) && Filled(n.queues) && n.queues.queueSize > 0 && n.sending.Empty?
    requires Shaped(Dequeued(n.queues))
  {
    var p, q := Queued(n.queues)[0], Dequeued(n.queues);
    if p.Beacon? then n.(queues := q)
    else if failed then n.(queues := Enqueued(q, p))
    else n.(queues := q, sending := Holds(p))
  }

  ghost function After(n: Node, step: Step): Node
    requires Shaped(n.queues) && Filled(n.queues) && Possible(n, step)
  {
    var q := n.queues;
    match step
    case Allocate =>
      if q.poolSize == 0 then n
      else n.(queues := Allocated(q), receiving := n.receiving + multiset{q.packetPool[q.poolHead]})
    case Enqueue(p) => n.(queues := Enqueued(q, p), receiving := n.receiving - multiset{p})
    case Send(failed) =>
      DequeueRemoves(q);
      Sent(n, failed)
    case Free => n.(queues := Freed(q, n.sending.packet), sending := Empty)
    case EnqueueBeacon => n.(queues := BeaconEnqueued(q))
  }

  lemma AllocateKeeps(n: Node)
    requires Conserved(n) && n.queues.poolSize > 0
    ensures Conserved(After(n, Allocate))
  {
    var q := n.queues;
    var r := Allocated(q);
    assert Pooled(q) == [q.packetPool[q.poolHead]] + Pooled(r);
    assert Queued(r) == Queued(q);
  }

  lemma EnqueueKeeps(n: Node, p: Packet)
    requires Conserved(n) && p in n.receiving
    ensures n.queues.queueSize < QUEUE_SIZE && Conserved(After(n, Enqueue(p)))
  {
    Room(n);
    assert p in Outside(n);
    EnqueueAppends(n.queues, p);
    var m := After(n, Enqueue(p));
    assert Pooled(m.queues) == Pooled(n.queues);
    assert multiset(Queued(m.queues)) == multiset(Queued(n.queues)) + multiset{p};
  }

  lemma Rotated(a: seq<Packet>)
    requires a != []
    ensures multiset(a[1..]) + multiset{a[0]} == multiset(a) == multiset(a[1..] + [a[0]])
  {
    assert a == [a[0]] + a[1..];
  }

  /** A packet goes back to the end of the queue. */
  lemma FailureKeeps(n: Node)
    requires Conserved(n) && n.sending.Empty? && n.queues.queueSize > 0 && Queued(n.queues)[0].Forward?
    ensures Conserved(After(n, Send(true)))
  {
    var q := n.queues;
    var a, r := Queued(q), Dequeued(q);
    DequeueRemoves(q);
    EnqueueAppends(r, a[0]);
    Rotated(a);
    var m := After(n, Send(true));
    assert Queued(m.queues) == a[1..] + [a[0]];
    assert Beacon in Queued(m.queues) <==> Beacon in multiset(Queued(m.queues));
    assert Beacon in a <==> Beacon in multiset(a);
    assert Outside(m) == Outside(n);
  }

  /** A packet that was sent goes to the thread's hand. */
  lemma SuccessKeeps(n: Node)
    requires Conserved(n) && n.sending.Empty? && n.queues.queueSize > 0 && Queued(n.queues)[0].Forward?
    ensures Conserved(After(n, Send(false)))
  {
    var a := Queued(n.queues);
    DequeueRemoves(n.queues);
    Rotated(a);
    var m := After(n, Send(false));
    assert Outside(m) == Outside(n) + multiset{a[0]};
    assert Beacon in a <==> Beacon in multiset(a);
    assert Beacon in a[1..] <==> Beacon in multiset(a[1..]);
  }

  lemma BeaconGone(a: seq<Packet>, o: multiset<Packet>, f: multiset<Packet>)
    requires a != [] && a[0] == Beacon && Beacon !in f && multiset(a) + o == f + multiset{Beacon}
    ensures Beacon !in a[1..] && multiset(a[1..]) + o == f
  {
    Rotated(a);
    var rest := multiset(a[1..]);
    assert (multiset(a) + o)[Beacon] == (f + multiset{Beacon})[Beacon] == 1;
    assert multiset(a)[Beacon] == rest[Beacon] + 1;
    assert Beacon !in rest;
    forall p: Packet
      ensures (rest + o)[p] == f[p]
    {
      assert (multiset(a) + o)[p] == (f + multiset{Beacon})[p];
      assert multiset(a)[p] == rest[p] + multiset{Beacon}[p];
    }
    assert rest + o == f;
  }

  /** A beacon is forgotten. */
  lemma BeaconSentKeeps(n: Node, failed: bool)
    requires Conserved(n) && n.sending.Empty? && n.queues.queueSize > 0 && Queued(n.queues)[0] == Beacon
    ensures Conserved(After(n, Send(failed)))
  {
    var f := Forwards(FORWARDING_SIZE);
    ForwardsCounted(FORWARDING_SIZE);
    DequeueRemoves(n.queues);
    BeaconGone(Queued(n.queues), Outside(n), f);
    assert Outside(After(n, Send(failed))) == Outside(n);
  }

  lemma SendKeeps(n: Node, failed: bool)
    requires Conserved(n) && n.sending.Empty? && n.queues.queueSize > 0
    ensures Conserved(After(n, Send(failed)))
  {
    if Queued(n.queues)[0].Beacon? {
      BeaconSentKeeps(n, failed);
    } else if failed {
      FailureKeeps(n);
    } else {
      SuccessKeeps(n);
    }
  }

  /** A packet comes back only while the pool lacks it. */
  lemma FreeKeeps(n: Node)
    requires Conserved(n) && n.sending.Holds?
    ensures n.queues.poolHead > 0 && Conserved(After(n, Free))
  {
    var q := n.queues;
    var r := Freed(q, n.sending.packet);
    Room(n);
    assert |Outside(n)| == q.poolSize + |n.receiving| + 1;
    assert Pooled(r) == [n.sending.packet] + Pooled(q);
    assert Queued(r) == Queued(q);
  }

  lemma Appended(a: seq<Packet>, b: seq<Packet>, p: Packet, o: multiset<Packet>, f: multiset<Packet>)
    requires b == a + [p] && multiset(a) + o == f
    ensures multiset(b) + o == f + multiset{p} && p in b
  {
    assert multiset(b) == multiset(a) + multiset{p};
    assert b[|a|] == p;
  }

  lemma BeaconKeeps(n: Node)
    requires Conserved(n)
    ensures Conserved(After(n, EnqueueBeacon))
  {
    var q := n.queues;
    BeaconFound(q);
    if !BeaconWaits(q) {
      Room(n);
      EnqueueAppends(q, Beacon);
      var m := After(n, EnqueueBeacon);
      Appended(Queued(q), Queued(m.queues), Beacon, Outside(n), Forwards(FORWARDING_SIZE));
      assert Outside(m) == Outside(n);
    }
  }

  /** Whatever the threads do, no packet is lost, doubled or left in two places. */
  lemma StepKeeps(n: Node, step: Step)
    requires Conserved(n) && Possible(n, step)
    ensures Conserved(After(n, step))
  {
    match step
    case Allocate =>
      if n.queues.poolSize > 0 {
        AllocateKeeps(n);
      }
    case Enqueue(p) => EnqueueKeeps(n, p);
    case Send(failed) => SendKeeps(n, failed);
    case Free => FreeKeeps(n);
    case EnqueueBeacon => BeaconKeeps(n);
  }

  /** The node as it should be seen: a queue, a stack, and the hands of the threads. */
  datatype View = View(queue: seq<Packet>, pool: seq<Packet>, hands: multiset<Packet>, hand: Slot)

  ghost function Seen(n: Node): View
    requires Shaped(n.queues) && Filled(n.queues)
  {
    View(Queued(n.queues), Pooled(n.queues), n.receiving, n.sending)
  }

  /** What the steps do to a queue and a stack. */
  ghost function Does(v: View, step: Step): View {
    match step
    case Allocate =>
      if v.pool == [] then v else v.(pool := v.pool[1..], hands := v.hands + multiset{v.pool[0]})
    case Enqueue(p) => v.(queue := v.queue + [p], hands := v.hands - multiset{p})
    case Send(failed) =>
      if v.queue == [] then v
      else if v.queue[0].Beacon? then v.(queue := v.queue[1..])
      else if failed then v.(queue := v.queue[1..] + [v.queue[0]])
      else v.(queue := v.queue[1..], hand := Holds(v.queue[0]))
    case Free => if v.hand.Empty? then v else v.(pool := [v.hand.packet] + v.pool, hand := Empty)
    case EnqueueBeacon => if Beacon in v.queue then v else v.(queue := v.queue + [Beacon])
  }

  lemma SendDoes(n: Node, failed: bool)
    requires Conserved(n) && Possible(n, Send(failed)) && Conserved(After(n, Send(failed)))
    ensures Seen(After(n, Send(failed))) == Does(Seen(n), Send(failed))
  {
    var q := n.queues;
    DequeueRemoves(q);
    if Queued(q)[0].Forward? && failed {
      EnqueueAppends(Dequeued(q), Queued(q)[0]);
    }
  }

  lemma SameQueue(q: Queues, r: Queues)
    requires Shaped(q) && Filled(q) && Shaped(r)
    requires r.sendQueue == q.sendQueue && r.queueHead == q.queueHead && r.queueSize == q.queueSize
    ensures Filled(r) && Queued(r) == Queued(q)
  {
  }

  lemma Pushed(pool: seq<Packet>, head: nat, p: Packet)
    requires 0 < head <= |pool|
    ensures pool[head - 1 := p][head - 1..] == [p] + pool[head..]
  {
  }

  lemma AllocateDoes(n: Node)
    requires Conserved(n)
    ensures Conserved(After(n, Allocate)) && Seen(After(n, Allocate)) == Does(Seen(n), Allocate)
  {
    var q := n.queues;
    if q.poolSize > 0 {
      AllocateKeeps(n);
      SameQueue(q, Allocated(q));
      assert Pooled(q)[0] == q.packetPool[q.poolHead] && Pooled(q)[1..] == Pooled(Allocated(q));
    }
  }

  lemma FreeDoes(n: Node)
    requires Conserved(n) && Possible(n, Free)
    ensures Conserved(After(n, Free)) && Seen(After(n, Free)) == Does(Seen(n), Free)
  {
    var q, p := n.queues, n.sending.packet;
    FreeKeeps(n);
    SameQueue(q, Freed(q, p));
    Pushed(q.packetPool, q.poolHead, p);
  }

  lemma QueueDoes(n: Node, step: Step)
    requires Conserved(n) && Possible(n, step) && (step.Enqueue? || step.EnqueueBeacon?) && Conserved(After(n, step))
    ensures Seen(After(n, step)) == Does(Seen(n), step)
  {
    var q := n.queues;
    assert Pooled(After(n, step).queues) == Pooled(q);
    if step.Enqueue? {
      EnqueueKeeps(n, step.packet);
      EnqueueAppends(q, step.packet);
    } else {
      BeaconFound(q);
      if !BeaconWaits(q) {
        Room(n);
        EnqueueAppends(q, Beacon);
      }
    }
  }

  /** The ring and the array are a queue and a stack, in every step. */
  lemma StepDoes(n: Node, step: Step)
    requires Conserved(n) && Possible(n, step)
    ensures Conserved(After(n, step)) && Seen(After(n, step)) == Does(Seen(n), step)
  {
    StepKeeps(n, step);
    match step
    case Allocate => AllocateDoes(n);
    case Free => FreeDoes(n);
    case Send(failed) => SendDoes(n, failed);
    case Enqueue(_) => QueueDoes(n, step);
    case EnqueueBeacon => QueueDoes(n, step);
  }

  ghost predicate Run(nodes: seq<Node>, steps: seq<Step>) {
    && |nodes| == |steps| + 1 && Started(nodes[0])
    && forall k :: 0 <= k < |steps| ==>
         && Shaped(nodes[k].queues) && Filled(nodes[k].queues) && Possible(nodes[k], steps[k])
         && nodes[k + 1] == After(nodes[k], steps[k])
  }

  ghost predicate Started(n: Node) {
    n == Node(Initial(), multiset{}, Empty)
  }

  function Initial(): Queues {
    Queues(seq(QUEUE_SIZE, _ => Empty), 0, 0, seq(FORWARDING_SIZE, i requires 0 <= i => Forward(i)), 0, FORWARDING_SIZE)
  }

  lemma InitialConserved(n: Node)
    requires Started(n)
    ensures Conserved(n)
  {
    var pool := Initial().packetPool;
    assert Pooled(n.queues) == [Forward(0), Forward(1), Forward(2), Forward(3), Forward(4)];
    assert multiset(Pooled(n.queues)) == Forwards(5);
  }

  /** Conservation over every run. */
  lemma {:induction false} RunConserves(nodes: seq<Node>, steps: seq<Step>, k: nat)
    requires Run(nodes, steps) && k < |nodes|
    ensures Conserved(nodes[k])
  {
    if k == 0 {
      InitialConserved(nodes[0]);
    } else {
      RunConserves(nodes, steps, k - 1);
      StepKeeps(nodes[k - 1], steps[k - 1]);
    }
  }
}

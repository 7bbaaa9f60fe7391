/** From every network that can be reached, any node can still be brought to the newest release, whole. */
module DelugeCompletion {
  import opened DelugeNode
  import opened DelugeNetwork
  import opened DelugeSafety
  import opened DelugeProgress

  // Runs from any network on.

  ghost predicate Connected<S>(steps: (S, S) -> bool, path: seq<S>) {
    path != [] && forall k :: 0 <= k < |path| - 1 ==> steps(path[k], path[k + 1])
  }

  lemma Joined<S>(steps: (S, S) -> bool, p: seq<S>, q: seq<S>)
    requires Connected(steps, p) && Connected(steps, q) && p[|p| - 1] == q[0]
    ensures Connected(steps, p + q[1..]) && (p + q[1..])[0] == p[0] && (p + q[1..])[|p + q[1..]| - 1] == q[|q| - 1]
  {
    var path := p + q[1..];
    forall k | 0 <= k < |path| - 1
      ensures steps(path[k], path[k + 1])
    {
      if k >= |p| - 1 {
        assert path[k] == q[k - (|p| - 1)] && path[k + 1] == q[k - (|p| - 1) + 1];
      }
    }
  }

  ghost function Steps(w: World): (Net, Net) -> bool {
    (a, b) => exists action :: Enabled(a, action) && b == Stepped(w, a, action)
  }

  ghost predicate Reaches(w: World, a: Net, b: Net) {
    exists path :: Connected(Steps(w), path) && path[0] == a && path[|path| - 1] == b
  }

  lemma ReachesOn(w: World, a: Net, b: Net, c: Net)
    requires Reaches(w, a, b) && Reaches(w, b, c)
    ensures Reaches(w, a, c)
  {
    var p :| Connected(Steps(w), p) && p[0] == a && p[|p| - 1] == b;
    var q :| Connected(Steps(w), q) && q[0] == b && q[|q| - 1] == c;
    Joined(Steps(w), p, q);
  }

  lemma ReachesNext(w: World, net: Net, a: Action)
    requires Enabled(net, a)
    ensures Reaches(w, net, Stepped(w, net, a)) && Reaches(w, net, net)
  {
    assert Steps(w)(net, Stepped(w, net, a));
    assert Connected(Steps(w), [net, Stepped(w, net, a)]);
    assert Connected(Steps(w), [net]);
  }

  // What keeps a node going.

  /** Some packet is always missing, and a node that is not sending has a state to go to. */
  ghost predicate Awake(n: Node) {
    && !None(n.rx.packets) && n.entry.next != Unset
    && (n.entry.next == Ignore ==> !n.tx.sending.Idle?)
  }

  ghost predicate Good(w: World, net: Net) {
    && Sound(w) && Invariant(w, net)
    && forall i :: 0 <= i < |net.nodes| ==> Awake(net.nodes[i])
  }

  lemma AllIsNotNone(n: nat)
    requires n > 0
    ensures !None(All(n, true))
  {
    assert All(n, true)[0];
  }

  lemma DataWakes(w: World, n: Node, m: Message)
    requires Sound(w) && NodeOK(w, n) && Truthful(w, m) && m.Data? && Awake(n)
    ensures Wanted(n, m) ==> n.dcb.incomingPage < n.dcb.goalPage
    ensures Awake(OnData(w.crc, n, m))
  {
    AllIsNotNone(PACKETS);
    if Wanted(n, m) {
      StoreKeeps(w, n, m);
    }
  }

  lemma ReceptionWakes(w: World, n: Node, a: Action)
    requires Sound(w) && NodeOK(w, n) && a.Receive? && Truthful(w, a.message) && Awake(n) && Defined(n, a)
    ensures Awake(Received(w, n, a))
  {
    AllIsNotNone(PACKETS);
    if a.message.Data? {
      DataWakes(w, n, a.message);
    }
  }

  lemma StaysAwake(w: World, net: Net, a: Action)
    requires Good(w, net) && Enabled(net, a)
    ensures Awake(After(w, net, a))
  {
    var n := net.nodes[a.node];
    assert Awake(n) && NodeOK(w, n);
    if a.Receive? {
      assert Truthful(w, a.message);
      ReceptionWakes(w, n, a);
    }
  }

  /** Only node j acts. */
  ghost predicate Alone(w: World, j: nat, a: Net, b: Net) {
    && Reaches(w, a, b) && Good(w, b) && |b.nodes| == |a.nodes| && a.air <= b.air
    && forall k :: 0 <= k < |a.nodes| && k != j ==> b.nodes[k] == a.nodes[k]
  }

  lemma AloneOn(w: World, j: nat, a: Net, b: Net, c: Net)
    requires Alone(w, j, a, b) && Alone(w, j, b, c)
    ensures Alone(w, j, a, c)
  {
    ReachesOn(w, a, b, c);
  }

  lemma StaysGood(w: World, net: Net, a: Action)
    requires Good(w, net) && Enabled(net, a)
    ensures Good(w, Stepped(w, net, a))
  {
    StepKeeps(w, net, a);
    StaysAwake(w, net, a);
  }

  lemma Act(w: World, net: Net, a: Action) returns (next: Net)
    requires Good(w, net) && Possible(net, a)
    ensures Enabled(net, a) && next == Stepped(w, net, a)
    ensures Alone(w, a.node, net, next) && next.nodes[a.node] == After(w, net, a) && next.air == net.air + Sent(net, a)
  {
    AlwaysDefined(w, net, a);
    StaysGood(w, net, a);
    ReachesNext(w, net, a);
    next := Stepped(w, net, a);
  }

  // A node comes to rest.

  const STALE := seq(PACKET_SIZE, _ => 0)

  /** What a node has, and what it misses, has not changed. */
  ghost predicate Same(n: Node, m: Node) {
    m.dcb == n.dcb && m.rx.packets == n.rx.packets
  }

  ghost predicate Ready(n: Node) {
    n.tx.sending.Idle? && n.entry == Entry(Maintain, true)
  }

  ghost predicate ClearedBelow(n: Node)
    requires Shaped(n) && n.tx.sending.Scanning?
  {
    forall k :: 0 <= k < n.tx.sending.index ==> !n.tx.packets[k]
  }

  ghost predicate Sweeping(net: Net, j: nat) {
    j < |net.nodes| && Shaped(net.nodes[j]) && net.nodes[j].tx.sending.Scanning?
  }

  lemma ScannedOn(n: Node)
    requires Shaped(n) && n.tx.sending.Scanning? && n.tx.sending.index < PACKETS
    ensures var m := Scanned(n);
      && Same(n, m) && Shaped(m) && m.tx.sending.Scanning? && m.tx.sending.index == n.tx.sending.index + 1
      && (InStep(n) && ClearedBelow(n) ==> InStep(m) && ClearedBelow(m))
  {
  }

  lemma ScanGoesOn(w: World, net: Net, j: nat) returns (next: Net)
    requires Good(w, net) && Sweeping(net, j) && net.nodes[j].tx.sending.index < PACKETS
    ensures Alone(w, j, net, next) && Same(net.nodes[j], next.nodes[j]) && Sweeping(next, j)
    ensures next.nodes[j].tx.sending.index == net.nodes[j].tx.sending.index + 1
    ensures InStep(net.nodes[j]) && ClearedBelow(net.nodes[j]) ==> InStep(next.nodes[j]) && ClearedBelow(next.nodes[j])
    ensures Swept(net.nodes[j], j, STALE) <= next.air + Swept(next.nodes[j], j, STALE)
  {
    ScannedOn(net.nodes[j]);
    next := Act(w, net, Scan(j, STALE));
    assert next.nodes[j] == Scanned(net.nodes[j]);
    assert next.air == net.air + ScanSends(net.nodes[j], j, STALE);
  }

  lemma ScanReturns(w: World, net: Net, j: nat) returns (next: Net)
    requires Good(w, net) && Sweeping(net, j) && net.nodes[j].tx.sending.index == PACKETS
    ensures Alone(w, j, net, next) && Same(net.nodes[j], next.nodes[j])
    ensures next.nodes[j].tx.sending.Testing? && next.nodes[j].tx.sending.packets == next.nodes[j].tx.packets
    ensures InStep(net.nodes[j]) && ClearedBelow(net.nodes[j]) ==> None(next.nodes[j].tx.packets)
    ensures Swept(net.nodes[j], j, STALE) <= next.air
  {
    next := Act(w, net, Scan(j, STALE));
  }

  /** A scan comes to its end, and has sent what it had to. */
  lemma {:induction false} SweepEnds(w: World, net: Net, j: nat) returns (to: Net)
    requires Good(w, net) && Sweeping(net, j)
    ensures Alone(w, j, net, to) && Same(net.nodes[j], to.nodes[j])
    ensures to.nodes[j].tx.sending.Testing? && to.nodes[j].tx.sending.packets == to.nodes[j].tx.packets
    ensures InStep(net.nodes[j]) && ClearedBelow(net.nodes[j]) ==> None(to.nodes[j].tx.packets)
    ensures Swept(net.nodes[j], j, STALE) <= to.air
    decreases PACKETS - net.nodes[j].tx.sending.index
  {
    if net.nodes[j].tx.sending.index == PACKETS {
      to := ScanReturns(w, net, j);
    } else {
      var next := ScanGoesOn(w, net, j);
      to := SweepEnds(w, next, j);
      AloneOn(w, j, net, next, to);
    }
  }

  /** The head of the transmission loop leads into a scan, or out of the transmission. */
  lemma TestLeads(w: World, net: Net, j: nat) returns (next: Net)
    requires Good(w, net) && j < |net.nodes| && net.nodes[j].tx.sending.Testing?
    ensures Alone(w, j, net, next) && Same(net.nodes[j], next.nodes[j])
    ensures None(net.nodes[j].tx.sending.packets) ==> Ready(next.nodes[j])
    ensures !Ready(next.nodes[j]) ==> Sweeping(next, j) && next.nodes[j].tx.sending.index == 0
    ensures !Ready(next.nodes[j]) && net.nodes[j].tx.sending.packets == net.nodes[j].tx.packets ==>
      InStep(next.nodes[j]) && ClearedBelow(next.nodes[j])
  {
    next := Act(w, net, Test(j));
    assert NodeOK(w, net.nodes[j]);
  }

  /** From the end of a scan at most one more is to come. */
  lemma LastScan(w: World, net: Net, j: nat) returns (to: Net)
    requires Good(w, net) && j < |net.nodes| && net.nodes[j].tx.sending.Testing?
    requires net.nodes[j].tx.sending.packets == net.nodes[j].tx.packets
    ensures Alone(w, j, net, to) && Same(net.nodes[j], to.nodes[j]) && Ready(to.nodes[j])
  {
    to := TestLeads(w, net, j);
    if !Ready(to.nodes[j]) {
      var swept := SweepEnds(w, to, j);
      AloneOn(w, j, net, to, swept);
      to := TestLeads(w, swept, j);
      AloneOn(w, j, net, swept, to);
    }
  }

  /** Whatever is being sent comes to an end. */
  lemma SendingEnds(w: World, net: Net, j: nat) returns (to: Net)
    requires Good(w, net) && j < |net.nodes| && !net.nodes[j].tx.sending.Idle?
    ensures Alone(w, j, net, to) && Same(net.nodes[j], to.nodes[j]) && Ready(to.nodes[j])
  {
    assert NodeOK(w, net.nodes[j]);
    var at := net;
    ReachesSelf(w, net);
    if at.nodes[j].tx.sending.Testing? {
      at := TestLeads(w, net, j);
    }
    if Ready(at.nodes[j]) {
      to := at;
    } else {
      var swept := SweepEnds(w, at, j);
      AloneOn(w, j, net, at, swept);
      to := LastScan(w, swept, j);
      AloneOn(w, j, net, swept, to);
    }
  }

  lemma ReachesSelf(w: World, net: Net)
    ensures Reaches(w, net, net)
  {
    assert Connected(Steps(w), [net]);
  }

  lemma Wakes(w: World, net: Net, j: nat) returns (next: Net)
    requires Good(w, net) && j < |net.nodes|
    ensures Alone(w, j, net, next) && next.nodes[j] == net.nodes[j].(entry := net.nodes[j].entry.(wake := true))
    ensures next.air == net.air
  {
    next := Act(w, net, Alarm(j));
  }

  /** The node takes its next state, whenever its alarm comes. */
  lemma Dispatches(w: World, net: Net, j: nat) returns (next: Net)
    requires Good(w, net) && j < |net.nodes| && net.nodes[j].tx.sending.Idle?
    ensures Alone(w, j, net, next) && Same(net.nodes[j], next.nodes[j])
    ensures next.nodes[j] == Dispatched(w.crc, net.nodes[j].(entry := net.nodes[j].entry.(wake := true)))
    ensures next.air == net.air + DispatchSends(net.nodes[j], j)
  {
    assert Awake(net.nodes[j]);
    var awake := Wakes(w, net, j);
    DispatchKeepsData(w, awake.nodes[j]);
    next := Act(w, awake, Dispatch(j));
    AloneOn(w, j, net, awake, next);
    assert DispatchSends(awake.nodes[j], j) == DispatchSends(net.nodes[j], j);
  }

  lemma DispatchKeepsData(w: World, n: Node)
    ensures Same(n, Dispatched(w.crc, n))
  {
  }

  /** Every node can be brought to the beginning of a round. */
  lemma {:induction false} ComesToRest(w: World, net: Net, j: nat) returns (to: Net)
    requires Good(w, net) && j < |net.nodes|
    ensures Alone(w, j, net, to) && Same(net.nodes[j], to.nodes[j]) && Ready(to.nodes[j])
    decreases LAMBDA - net.nodes[j].rx.nRequests
  {
    var n := net.nodes[j];
    assert Awake(n);
    if !n.tx.sending.Idle? {
      to := SendingEnds(w, net, j);
    } else if n.entry.next == Maintain {
      to := Wakes(w, net, j);
    } else {
      var next := Dispatches(w, net, j);
      match n.entry.next {
        case Maintain2 => to := Wakes(w, next, j);
        case Tx => to := SendingEnds(w, next, j);
        case Rx =>
          if n.rx.nRequests < LAMBDA {
            to := ComesToRest(w, next, j);
          } else {
            to := Wakes(w, next, j);
          }
      }
      AloneOn(w, j, net, next, to);
    }
  }

  // A round.

  /** A node begins a round; three turns later it has advertised what it has and begins another. */
  lemma Advertises(w: World, net: Net, j: nat) returns (to: Net)
    requires Good(w, net) && j < |net.nodes| && Ready(net.nodes[j])
    ensures Alone(w, j, net, to) && Same(net.nodes[j], to.nodes[j]) && Ready(to.nodes[j])
    ensures Maintaining(to.nodes[j])
    ensures var heard := net.nodes[j].heard;
      to.nodes[j].heard == Heard(0, 0, false, Less(heard.request), Less(heard.data))
    ensures Advert(net.nodes[j], j) in to.air
  {
    var n := net.nodes[j];
    var first := Dispatches(w, net, j);
    var n1 := first.nodes[j];
    assert n1.heard == Heard(0, 0, n.heard.obsolete, Less(n.heard.request), Less(n.heard.data));
    var second := Dispatches(w, first, j);
    AloneOn(w, j, net, first, second);
    to := Wakes(w, second, j);
    AloneOn(w, j, net, second, to);
  }

  /** A profile if a neighbour was found to be obsolete, and a summary otherwise. */
  ghost function Advert(n: Node, me: nat): Message {
    if n.heard.obsolete then Profile(n.dcb.version, n.dcb.codeSize, n.dcb.goalPage, n.dcb.programCrc, me)
    else Summary(n.dcb.version, n.dcb.highPage, 0, me)
  }

  /** A node that listens, and would follow a neighbour with more pages. */
  ghost predicate Calm(n: Node) {
    Ready(n) && Maintaining(n) && !n.heard.obsolete && n.heard.request == 0 && n.heard.data == 0
  }

  ghost function Unrest(n: Node): nat {
    n.heard.request + n.heard.data + if n.heard.obsolete then 1 else 0
  }

  /** After enough rounds a node has calmed down, and what it has is known. */
  lemma {:induction false} CalmsDown(w: World, net: Net, j: nat) returns (to: Net)
    requires Good(w, net) && j < |net.nodes| && Ready(net.nodes[j])
    ensures Alone(w, j, net, to) && Same(net.nodes[j], to.nodes[j]) && Calm(to.nodes[j])
    ensures Summary(net.nodes[j].dcb.version, net.nodes[j].dcb.highPage, 0, j) in to.air
    decreases Unrest(net.nodes[j])
  {
    var next := Advertises(w, net, j);
    if Unrest(net.nodes[j]) == 0 {
      to := next;
    } else {
      to := CalmsDown(w, next, j);
      AloneOn(w, j, net, next, to);
    }
  }

  lemma Settles(w: World, net: Net, j: nat) returns (to: Net)
    requires Good(w, net) && j < |net.nodes|
    ensures Alone(w, j, net, to) && Same(net.nodes[j], to.nodes[j]) && Calm(to.nodes[j])
    ensures Summary(net.nodes[j].dcb.version, net.nodes[j].dcb.highPage, 0, j) in to.air
  {
    var rest := ComesToRest(w, net, j);
    to := CalmsDown(w, rest, j);
    AloneOn(w, j, net, rest, to);
  }

  // Two nodes: i, which is behind, and h, which has what i needs.

  ghost predicate Pair(net: Net, i: nat, h: nat) {
    i < |net.nodes| && h < |net.nodes| && i != h
  }

  /** Only i and h have acted, and h has what it had. */
  ghost predicate Together(w: World, i: nat, h: nat, a: Net, b: Net) {
    && Reaches(w, a, b) && Good(w, b) && |b.nodes| == |a.nodes| && a.air <= b.air && Pair(a, i, h)
    && b.nodes[h].dcb == a.nodes[h].dcb
    && forall k :: 0 <= k < |a.nodes| && k != i && k != h ==> b.nodes[k] == a.nodes[k]
  }

  /** Both have calmed down, and know of each other. */
  lemma BothSettle(w: World, net: Net, i: nat, h: nat) returns (to: Net)
    requires Good(w, net) && Pair(net, i, h)
    ensures Together(w, i, h, net, to) && Same(net.nodes[i], to.nodes[i])
    ensures Calm(to.nodes[i]) && Calm(to.nodes[h])
    ensures Summary(net.nodes[i].dcb.version, net.nodes[i].dcb.highPage, 0, i) in to.air
    ensures Summary(net.nodes[h].dcb.version, net.nodes[h].dcb.highPage, 0, h) in to.air
  {
    var one := Settles(w, net, h);
    to := Settles(w, one, i);
    ReachesOn(w, net, one, to);
  }

  lemma Hears(w: World, net: Net, j: nat, m: Message, blank: seq<Byte>) returns (next: Net)
    requires Good(w, net) && j < |net.nodes| && m in net.air && (m.Profile? ==> |blank| == m.codeSize)
    ensures Alone(w, j, net, next) && Defined(net.nodes[j], Receive(j, m, true, blank))
    ensures next.nodes[j] == Received(w, net.nodes[j], Receive(j, m, true, blank)) && next.air == net.air
  {
    next := Act(w, net, Receive(j, m, true, blank));
  }

  /** The node that is behind asks the other for a page. */
  lemma Asks(w: World, net: Net, i: nat, h: nat) returns (to: Net)
    requires Good(w, net) && Pair(net, i, h)
    requires net.nodes[i].dcb.version == net.nodes[h].dcb.version
    requires net.nodes[i].dcb.highPage < net.nodes[h].dcb.highPage
    ensures Together(w, i, h, net, to) && Same(net.nodes[i], to.nodes[i]) && Calm(to.nodes[h])
    ensures var n := net.nodes[i]; Request(n.dcb.version, n.dcb.incomingPage, n.rx.packets, h, i) in to.air
  {
    var n := net.nodes[h];
    var settled := BothSettle(w, net, i, h);
    var following := Hears(w, settled, i, Summary(n.dcb.version, n.dcb.highPage, 0, h), []);
    assert following.nodes[i].rx.updater == h && following.nodes[i].rx.nRequests == 0;
    assert following.nodes[i].entry == Entry(Rx, true) && following.nodes[i].tx.sending.Idle?;
    to := Dispatches(w, following, i);
    ReachesOn(w, settled, following, to);
    ReachesOn(w, net, settled, to);
  }

  /** The other takes the request, and enters its transmission. */
  lemma TakesRequest(w: World, net: Net, h: nat, request: Message) returns (to: Net)
    requires Good(w, net) && h < |net.nodes| && Calm(net.nodes[h]) && request in net.air
    requires request.Request? && request.to == h && request.version == net.nodes[h].dcb.version
    requires request.page < net.nodes[h].dcb.highPage && WellFormed(request)
    ensures NodeOK(w, net.nodes[h])
    ensures Alone(w, h, net, to) && to.nodes[h] == Serving(w, net.nodes[h], h, request)
  {
    var n := net.nodes[h];
    var heard := Hears(w, net, h, request, []);
    assert NodeOK(w, n) && heard.nodes[h] == OnRequest(n, h, request);
    assert heard.nodes[h].entry == Entry(Tx, true);
    to := Act(w, heard, Dispatch(h));
    AloneOn(w, h, net, heard, to);
  }

  lemma Starts(w: World, net: Net, i: nat, h: nat, request: Message) returns (to: Net)
    requires Good(w, net) && Pair(net, i, h) && Calm(net.nodes[h]) && request in net.air
    requires request.Request? && request.to == h && request.version == net.nodes[h].dcb.version
    requires request.page < net.nodes[h].dcb.highPage && WellFormed(request) && !None(request.packets)
    ensures Alone(w, h, net, to) && Same(net.nodes[h], to.nodes[h]) && Sweeping(to, h) && InStep(to.nodes[h])
    ensures var tx := to.nodes[h].tx;
      && tx.packets == request.packets && tx.sending.index == 0
      && tx.sending.version == request.version && tx.sending.page == request.page
  {
    var serving := TakesRequest(w, net, h, request);
    ServingStarts(w, net.nodes[h], h, request);
    to := Act(w, serving, Test(h));
    AloneOn(w, h, net, serving, to);
  }

  lemma {:induction false} Listed(s: set<Message>) returns (messages: seq<Message>)
    ensures forall m :: m in messages <==> m in s
    decreases |s|
  {
    if s == {} {
      messages := [];
    } else {
      var m :| m in s;
      var rest := Listed(s - {m});
      messages := [m] + rest;
    }
  }

  /** The node that asked hears all of the answer. */
  lemma {:induction false} Feeds(w: World, net: Net, i: nat, messages: seq<Message>) returns (to: Net)
    requires Good(w, net) && i < |net.nodes| && forall m <- messages :: m in net.air && m.Data?
    ensures NodeOK(w, net.nodes[i]) && forall m <- messages :: Truthful(w, m)
    ensures Alone(w, i, net, to) && to.nodes[i] == Fed(w, net.nodes[i], messages)
    decreases |messages|
  {
    assert NodeOK(w, net.nodes[i]);
    if messages == [] {
      ReachesSelf(w, net);
      to := net;
    } else {
      assert Truthful(w, messages[0]);
      var next := Hears(w, net, i, messages[0], []);
      to := Feeds(w, next, i, messages[1..]);
      AloneOn(w, i, net, next, to);
    }
  }

  lemma SweptIsData(w: World, net: Net, h: nat)
    requires Good(w, net) && Sweeping(net, h)
    ensures forall m <- Swept(net.nodes[h], h, STALE) :: Truthful(w, m) && m.Data?
  {
    assert NodeOK(w, net.nodes[h]);
    SweepIsTruthful(w, net.nodes[h], h, STALE);
  }

  /** The request of a node that is behind is answered, with all that it misses. */
  lemma IsAnswered(w: World, net: Net, i: nat, h: nat) returns (to: Net, messages: seq<Message>)
    requires Good(w, net) && Pair(net, i, h) && Calm(net.nodes[h])
    requires var n := net.nodes[i];
      && n.dcb.version == net.nodes[h].dcb.version && n.dcb.highPage < net.nodes[h].dcb.highPage
      && Request(n.dcb.version, n.dcb.incomingPage, n.rx.packets, h, i) in net.air
    ensures Alone(w, h, net, to) && Same(net.nodes[h], to.nodes[h])
    ensures |net.nodes[i].rx.packets| == PACKETS && Covers(messages, net.nodes[i])
    ensures forall m <- messages :: m in to.air && m.Data?
  {
    var n := net.nodes[i];
    assert NodeOK(w, n) && Awake(n);
    var started := Starts(w, net, i, h, Request(n.dcb.version, n.dcb.incomingPage, n.rx.packets, h, i));
    to := SweepEnds(w, started, h);
    AloneOn(w, h, net, started, to);
    SweptIsData(w, started, h);
    messages := Listed(Swept(started.nodes[h], h, STALE));
    assert NodeOK(w, started.nodes[h]);
    AnswersCover(w, n, started.nodes[h], h, STALE, messages);
  }

  /** The node that is behind gains a page. */
  lemma Gains(w: World, net: Net, i: nat, h: nat) returns (to: Net)
    requires Good(w, net) && Pair(net, i, h) && Honest(w, net.nodes[i].dcb.version)
    requires net.nodes[i].dcb.version == net.nodes[h].dcb.version
    requires net.nodes[i].dcb.highPage < net.nodes[h].dcb.highPage
    ensures Together(w, i, h, net, to) && to.nodes[i].dcb.version == net.nodes[i].dcb.version
    ensures to.nodes[i].dcb.highPage > net.nodes[i].dcb.highPage
  {
    var asked := Asks(w, net, i, h);
    var answered, messages := IsAnswered(w, asked, i, h);
    ReachesOn(w, net, asked, answered);
    to := Feeds(w, answered, i, messages);
    ReachesOn(w, net, answered, to);
    assert Awake(answered.nodes[i]);
    PageCompletes(w, answered.nodes[i], messages);
  }

  ghost predicate Complete(n: Node) {
    n.dcb.highPage == n.dcb.goalPage
  }

  /** Page after page, it comes to have them all. */
  lemma {:induction false} Finishes(w: World, net: Net, i: nat, h: nat) returns (to: Net)
    requires Good(w, net) && Pair(net, i, h) && Honest(w, net.nodes[i].dcb.version)
    requires net.nodes[i].dcb.version == net.nodes[h].dcb.version && Complete(net.nodes[h])
    ensures Together(w, i, h, net, to) && to.nodes[i].dcb.version == net.nodes[i].dcb.version && Complete(to.nodes[i])
    decreases net.nodes[i].dcb.goalPage - net.nodes[i].dcb.highPage
  {
    assert NodeOK(w, net.nodes[i]) && NodeOK(w, net.nodes[h]);
    if Complete(net.nodes[i]) {
      ReachesSelf(w, net);
      to := net;
    } else {
      var next := Gains(w, net, i, h);
      assert NodeOK(w, next.nodes[i]);
      to := Finishes(w, next, i, h);
      ReachesOn(w, net, next, to);
    }
  }

  /** The node with the newer version finds out that the other's is obsolete, and sends its own. */
  lemma Announces(w: World, net: Net, i: nat, h: nat, m: Message) returns (to: Net)
    requires Good(w, net) && Pair(net, i, h) && Calm(net.nodes[h]) && m in net.air && m.Summary?
    requires m.version < net.nodes[h].dcb.version
    ensures Alone(w, h, net, to) && Same(net.nodes[h], to.nodes[h])
    ensures var n := net.nodes[h]; Profile(n.dcb.version, n.dcb.codeSize, n.dcb.goalPage, n.dcb.programCrc, h) in to.air
  {
    var warned := Hears(w, net, h, m, []);
    assert warned.nodes[h].heard.obsolete && Ready(warned.nodes[h]);
    to := Advertises(w, warned, h);
    AloneOn(w, h, net, warned, to);
  }

  lemma TakesOver(w: World, net: Net, i: nat, m: Message) returns (to: Net)
    requires Good(w, net) && i < |net.nodes| && Maintaining(net.nodes[i]) && m in net.air && m.Profile?
    requires net.nodes[i].dcb.version < m.version
    ensures Alone(w, i, net, to) && to.nodes[i].dcb.version == m.version
  {
    var blank: seq<Byte> := seq(m.codeSize, _ => 0);
    to := Hears(w, net, i, m, blank);
  }

  /** A node with an older version adopts that of the other. */
  lemma Adopts(w: World, net: Net, i: nat, h: nat) returns (to: Net)
    requires Good(w, net) && Pair(net, i, h) && net.nodes[i].dcb.version < net.nodes[h].dcb.version
    ensures Together(w, i, h, net, to) && to.nodes[i].dcb.version == net.nodes[h].dcb.version
  {
    var behind, newest := net.nodes[i].dcb, net.nodes[h].dcb;
    var settled := BothSettle(w, net, i, h);
    var told := Announces(w, settled, i, h, Summary(behind.version, behind.highPage, 0, i));
    ReachesOn(w, net, settled, told);
    to := TakesOver(w, told, i, Profile(newest.version, newest.codeSize, newest.goalPage, newest.programCrc, h));
    ReachesOn(w, net, told, to);
  }

  /** Any node can be brought to the release of a node that has all of it, unless its own is newer. */
  lemma CatchesUp(w: World, net: Net, i: nat, h: nat) returns (to: Net)
    requires Good(w, net) && Pair(net, i, h) && Honest(w, net.nodes[h].dcb.version)
    requires net.nodes[i].dcb.version <= net.nodes[h].dcb.version && Complete(net.nodes[h])
    ensures Together(w, i, h, net, to) && to.nodes[i].dcb.version == net.nodes[h].dcb.version && Complete(to.nodes[i])
  {
    if net.nodes[i].dcb.version == net.nodes[h].dcb.version {
      to := Finishes(w, net, i, h);
    } else {
      var adopted := Adopts(w, net, i, h);
      to := Finishes(w, adopted, i, h);
      ReachesOn(w, net, adopted, to);
    }
  }

  // The publisher of the newest release.

  /** Node h has all of the newest release there is. */
  ghost predicate Newest(net: Net, h: nat) {
    && h < |net.nodes| && Complete(net.nodes[h])
    && (forall i :: 0 <= i < |net.nodes| ==> net.nodes[i].dcb.version <= net.nodes[h].dcb.version)
    && (forall m <- net.air :: m.version <= net.nodes[h].dcb.version)
  }

  lemma NothingNewerSent(w: World, net: Net, h: nat, a: Action)
    requires Good(w, net) && Newest(net, h) && Enabled(net, a)
    ensures forall m <- Sent(net, a) :: m.version <= net.nodes[h].dcb.version
  {
    var n := net.nodes[a.node];
    assert NodeOK(w, n) && n.dcb.version <= net.nodes[h].dcb.version;
  }

  lemma NothingNewerHeard(w: World, net: Net, h: nat, a: Action)
    requires Good(w, net) && Newest(net, h) && Enabled(net, a) && a.Receive?
    ensures var dcb := Received(w, net.nodes[a.node], a).dcb;
      dcb.version <= net.nodes[h].dcb.version && (a.node == h ==> dcb == net.nodes[h].dcb)
  {
    var n := net.nodes[a.node];
    assert NodeOK(w, n) && n.dcb.version <= net.nodes[h].dcb.version;
    assert Truthful(w, a.message) && a.message.version <= net.nodes[h].dcb.version;
    if a.message.Data? && Wanted(n, a.message) {
      StoreKeeps(w, n, a.message);
    }
  }

  lemma NothingNewerAdopted(w: World, net: Net, h: nat, a: Action)
    requires Good(w, net) && Newest(net, h) && Enabled(net, a)
    ensures After(w, net, a).dcb.version <= net.nodes[h].dcb.version
    ensures a.node == h ==> After(w, net, a).dcb == net.nodes[h].dcb
  {
    if a.Receive? {
      NothingNewerHeard(w, net, h, a);
    } else {
      assert After(w, net, a).dcb == net.nodes[a.node].dcb;
    }
  }

  lemma StaysNewest(w: World, net: Net, h: nat, a: Action)
    requires Good(w, net) && Newest(net, h) && Enabled(net, a)
    ensures Newest(Stepped(w, net, a), h) && Stepped(w, net, a).nodes[h].dcb == net.nodes[h].dcb
  {
    NothingNewerSent(w, net, h, a);
    NothingNewerAdopted(w, net, h, a);
  }

  lemma {:induction false} NewestAmong(nodes: seq<Node>) returns (h: nat)
    requires nodes != []
    ensures h < |nodes| && forall i :: 0 <= i < |nodes| ==> nodes[i].dcb.version <= nodes[h].dcb.version
    decreases |nodes|
  {
    h := 0;
    if |nodes| > 1 {
      var rest := nodes[1..];
      var k := NewestAmong(rest);
      forall i | 0 < i < |nodes|
        ensures nodes[i].dcb.version <= rest[k].dcb.version
      {
        assert nodes[i] == rest[i - 1];
      }
      h := if nodes[0].dcb.version <= rest[k].dcb.version then k + 1 else 0;
    }
  }

  lemma InitialIsGood(w: World, net: Net)
    requires Sound(w) && Initial(w, net)
    ensures Good(w, net)
  {
    InitialIsSafe(w, net);
    AllIsNotNone(PACKETS);
    forall i | 0 <= i < |net.nodes|
      ensures Awake(net.nodes[i])
    {
      assert Booted(w, net.nodes[i]);
    }
  }

  /** In every network of a run some packet is missing at every node, and no node is stuck. */
  lemma {:induction false} RunIsGood(w: World, nets: seq<Net>, actions: seq<Action>, k: nat)
    requires Sound(w) && Run(w, nets, actions) && k < |nets|
    ensures Good(w, nets[k])
  {
    if k == 0 {
      InitialIsGood(w, nets[0]);
    } else {
      RunIsGood(w, nets, actions, k - 1);
      StaysGood(w, nets[k - 1], actions[k - 1]);
    }
  }

  /** A node that starts with the newest release always has all of it, and no release is newer. */
  lemma {:induction false} RunHasNewest(w: World, nets: seq<Net>, actions: seq<Action>, k: nat, h: nat)
    requires Sound(w) && Run(w, nets, actions) && k < |nets| && Newest(nets[0], h)
    ensures Newest(nets[k], h) && nets[k].nodes[h].dcb == nets[0].nodes[h].dcb
  {
    if k > 0 {
      RunHasNewest(w, nets, actions, k - 1, h);
      RunIsGood(w, nets, actions, k - 1);
      StaysNewest(w, nets[k - 1], h, actions[k - 1]);
    }
  }

  lemma SomeNodeIsNewest(w: World, net: Net) returns (h: nat)
    requires Initial(w, net) && net.nodes != []
    ensures Newest(net, h)
  {
    h := NewestAmong(net.nodes);
    assert Booted(w, net.nodes[h]);
  }

  lemma NewestIsReleased(w: World, net: Net, h: nat)
    requires Good(w, net) && h < |net.nodes|
    ensures net.nodes[h].dcb.version in w.releases
  {
    assert NodeOK(w, net.nodes[h]);
  }

  /** A node that has all of the release of the other. */
  ghost predicate Caught(n: Node, release: Block) {
    n.dcb.version == release.version && Complete(n)
  }

  /** One node after the other catches up with the one that has the newest release; those that have, keep it. */
  lemma {:induction false} AllCatchUp(w: World, net: Net, h: nat, n: nat) returns (to: Net)
    requires Good(w, net) && Newest(net, h) && n <= |net.nodes| && Honest(w, net.nodes[h].dcb.version)
    ensures Reaches(w, net, to) && Good(w, to) && |to.nodes| == |net.nodes| && to.nodes[h].dcb == net.nodes[h].dcb
    ensures forall k :: 0 <= k < n ==> Caught(to.nodes[k], net.nodes[h].dcb)
    ensures forall k :: n <= k < |net.nodes| && k != h ==> to.nodes[k] == net.nodes[k]
  {
    if n == 0 {
      ReachesSelf(w, net);
      to := net;
    } else {
      var before := AllCatchUp(w, net, h, n - 1);
      if n - 1 == h {
        to := before;
      } else {
        to := CatchesUp(w, before, n - 1, h);
        ReachesOn(w, net, before, to);
      }
    }
  }

  /** From the end of every run, whatever was lost, repeated or reordered in it, a network can be reached in which every
      node has the whole image of the newest release that was published, if that release is honest. */
  lemma AlwaysCanComplete(w: World, nets: seq<Net>, actions: seq<Action>) returns (to: Net, newest: nat)
    requires Sound(w) && Run(w, nets, actions) && nets[0].nodes != []
    requires forall v <- w.releases ::
      (forall k :: 0 <= k < |nets[0].nodes| ==> nets[0].nodes[k].dcb.version <= v) ==> Honest(w, v)
    ensures Reaches(w, nets[|nets| - 1], to) && |to.nodes| == |nets[0].nodes| && newest in w.releases
    ensures forall k :: 0 <= k < |to.nodes| ==> nets[0].nodes[k].dcb.version <= newest
    ensures exists k :: 0 <= k < |to.nodes| && nets[0].nodes[k].dcb.version == newest
    ensures forall i :: 0 <= i < |to.nodes| ==> HasAll(w, to.nodes[i], newest)
  {
    var h := SomeNodeIsNewest(w, nets[0]);
    var end := |nets| - 1;
    RunHasNewest(w, nets, actions, end, h);
    RunKeepsNodes(w, nets, actions, end);
    RunIsGood(w, nets, actions, end);
    NewestIsReleased(w, nets[end], h);
    newest := nets[0].nodes[h].dcb.version;
    to := AllCatchUp(w, nets[end], h, |nets[end].nodes|);
    forall i | 0 <= i < |to.nodes|
      ensures HasAll(w, to.nodes[i], newest)
    {
      CaughtHasAll(w, to, i, nets[end].nodes[h].dcb);
    }
  }

  ghost predicate HasAll(w: World, n: Node, version: nat) {
    n.dcb.version == version && version in w.releases && Complete(n) && n.store.file == w.releases[version].image
  }

  lemma CaughtHasAll(w: World, net: Net, i: nat, release: Block)
    requires Good(w, net) && i < |net.nodes| && Caught(net.nodes[i], release)
    ensures HasAll(w, net.nodes[i], release.version)
  {
    assert NodeOK(w, net.nodes[i]);
    WholeImage(w, net.nodes[i].dcb, net.nodes[i].store.file);
  }

  // Without an honest release.

  /** A node that took over a release that is not honest is never done with it, unless there is nothing to do. */
  ghost predicate Unfinished(w: World, first: Node, n: Node) {
    var v := n.dcb.version;
    v in w.releases && v != first.dcb.version && !Honest(w, v) && w.releases[v].pages > 0 ==> !Complete(n)
  }

  lemma DataLeavesUnfinished(w: World, first: Node, n: Node, m: Message)
    requires Sound(w) && NodeOK(w, n) && m.Data? && Truthful(w, m) && Wanted(n, m) && Unfinished(w, first, n)
    ensures n.dcb.incomingPage < n.dcb.goalPage
    ensures Unfinished(w, first, OnData(w.crc, n, m))
  {
    StoreKeeps(w, n, m);
    var stored := PacketStored(n, m);
    if None(stored.rx.packets) && MovedToNextPage(n.dcb).incomingPage == n.dcb.goalPage {
      ProgramCheckOutcome(w, stored);
    }
  }

  lemma StaysUnfinished(w: World, net: Net, a: Action, first: Node)
    requires Good(w, net) && Enabled(net, a) && Unfinished(w, first, net.nodes[a.node])
    ensures Unfinished(w, first, After(w, net, a))
  {
    var n := net.nodes[a.node];
    assert NodeOK(w, n);
    if a.Receive? {
      assert Truthful(w, a.message);
      if a.message.Data? && Wanted(n, a.message) {
        DataLeavesUnfinished(w, first, n, a.message);
      }
    } else {
      assert After(w, net, a).dcb == n.dcb;
    }
  }

  /** So the release has to be honest for its pages to be counted as an update, in any run. */
  lemma {:induction false} NeverCompletesUnlessHonest(w: World, nets: seq<Net>, actions: seq<Action>, k: nat, i: nat)
    requires Sound(w) && Run(w, nets, actions) && k < |nets| && i < |nets[0].nodes|
    ensures |nets[k].nodes| == |nets[0].nodes| && Unfinished(w, nets[0].nodes[i], nets[k].nodes[i])
  {
    RunKeepsNodes(w, nets, actions, k);
    if k > 0 {
      NeverCompletesUnlessHonest(w, nets, actions, k - 1, i);
      RunIsGood(w, nets, actions, k - 1);
      var before, a := nets[k - 1], actions[k - 1];
      if a.node == i {
        StaysUnfinished(w, before, a, nets[0].nodes[i]);
      }
      assert nets[k].nodes[i] == if a.node == i then After(w, before, a) else before.nodes[i];
    }
  }
}

/** The rules of Deluge over whole runs: who is answered, keeps quiet, advertises what, and asks how often. */
module DelugeRules {
  import opened DelugeNode
  import opened DelugeNetwork
  import opened DelugeSafety
  import opened DelugeProgress

  // A run as steps that are looked at one at a time.

  ghost predicate StepAt(w: World, nets: seq<Net>, actions: seq<Action>, k: nat)
    requires k < |actions| < |nets|
  {
    && Enabled(nets[k], actions[k]) && nets[k + 1] == Stepped(w, nets[k], actions[k])
    && Invariant(w, nets[k]) && |nets[k].nodes| == |nets[k + 1].nodes| == |nets[0].nodes|
  }

  ghost predicate Walk(w: World, nets: seq<Net>, actions: seq<Action>) {
    |nets| == |actions| + 1 && forall k: nat :: k < |actions| ==> StepAt(w, nets, actions, k)
  }

  lemma RunIsWalk(w: World, nets: seq<Net>, actions: seq<Action>)
    requires Sound(w) && Run(w, nets, actions)
    ensures Walk(w, nets, actions)
  {
    forall k: nat | k < |actions|
      ensures StepAt(w, nets, actions, k)
    {
      RunIsSafe(w, nets, actions, k);
      RunKeepsNodes(w, nets, actions, k);
      RunKeepsNodes(w, nets, actions, k + 1);
    }
  }

  // Rule T: what is asked for while a page is being sent is sent with it.

  /** The transmission loop will look at what is wanted again. */
  ghost predicate Looking(n: Node) {
    n.tx.sending.Scanning? || (n.tx.sending.Testing? && !None(n.tx.sending.packets))
  }

  ghost predicate Owes(n: Node, version: nat, page: nat, p: nat) {
    && p < PACKETS == |n.tx.packets| && n.tx.packets[p]
    && n.dcb.version == version && n.tx.page == page && Looking(n)
  }

  /** In this step node j sends the packet. */
  ghost predicate Sends(net: Net, a: Action, j: nat, version: nat, page: nat, p: nat)
    requires Enabled(net, a)
  {
    exists m :: m in Sent(net, a) && Answers(m, version, page, p) && m.id == j
  }

  lemma ScanPays(w: World, net: Net, a: Action, j: nat, version: nat, page: nat, p: nat)
    requires Invariant(w, net) && Enabled(net, a) && a.Scan? && a.node == j
    requires Owes(net.nodes[j], version, page, p)
    ensures Owes(After(w, net, a), version, page, p) || Sends(net, a, j, version, page, p)
  {
    var n := net.nodes[j];
    var s := n.tx.sending;
    assert NodeOK(w, n) && s.version == version && s.page == page;
    if s.index == p && s.packets[p] {
      var bytes := ReadOver(n.store.file, Address(s.page, p), a.stale);
      var payload := if p == PACKETS - 1
                     then bytes[PACKET_SIZE - 2 := s.crc.low][PACKET_SIZE - 1 := s.crc.high] else bytes;
      var m := Data(version, page, p, payload, j);
      assert m in Sent(net, a) && Answers(m, version, page, p);
    }
  }

  lemma ReceptionOwes(w: World, net: Net, a: Action, j: nat, version: nat, page: nat, p: nat)
    requires Invariant(w, net) && Enabled(net, a) && a.Receive? && a.node == j
    requires Owes(net.nodes[j], version, page, p)
    ensures Owes(After(w, net, a), version, page, p)
  {
    assert NodeOK(w, net.nodes[j]) && net.nodes[j].mode == Tx;
  }

  lemma OwesOn(w: World, net: Net, a: Action, j: nat, version: nat, page: nat, p: nat)
    requires Invariant(w, net) && Enabled(net, a) && j < |net.nodes| && Owes(net.nodes[j], version, page, p)
    ensures Owes(Stepped(w, net, a).nodes[j], version, page, p) || Sends(net, a, j, version, page, p)
  {
    if a.node == j {
      assert NodeOK(w, net.nodes[j]) && net.nodes[j].mode == Tx;
      if a.Scan? {
        ScanPays(w, net, a, j, version, page, p);
      } else if a.Receive? {
        ReceptionOwes(w, net, a, j, version, page, p);
      }
    }
  }

  ghost predicate SendsAt(nets: seq<Net>, actions: seq<Action>, i: nat, j: nat, version: nat, page: nat, p: nat)
    requires i < |actions| < |nets|
  {
    Enabled(nets[i], actions[i]) && Sends(nets[i], actions[i], j, version, page, p)
  }

  /** Once owed, a packet is owed until it is sent, whatever any node does and hears. */
  lemma {:induction false} OwedUntilSent(w: World, nets: seq<Net>, actions: seq<Action>, k: nat, e: nat, j: nat,
                                         version: nat, page: nat, p: nat)
    requires Walk(w, nets, actions) && k <= e < |nets| && j < |nets[k].nodes|
    requires Owes(nets[k].nodes[j], version, page, p)
    ensures |nets[e].nodes| == |nets[k].nodes|
    ensures Owes(nets[e].nodes[j], version, page, p)
      || exists i: nat :: k <= i < e && SendsAt(nets, actions, i, j, version, page, p)
  {
    if k < e {
      OwedUntilSent(w, nets, actions, k, e - 1, j, version, page, p);
      assert StepAt(w, nets, actions, e - 1);
      if Owes(nets[e - 1].nodes[j], version, page, p) {
        OwesOn(w, nets[e - 1], actions[e - 1], j, version, page, p);
        assert Owes(nets[e].nodes[j], version, page, p) || SendsAt(nets, actions, e - 1, j, version, page, p);
      }
    }
  }

  /** A request for the page that is being sent, heard at any turn of the loop that is not its last: every packet it
      names, and every packet wanted before, is sent before the loop comes to its end. */
  lemma RequestJoins(w: World, nets: seq<Net>, actions: seq<Action>, k: nat, e: nat, p: nat)
    requires Sound(w) && Run(w, nets, actions) && k < e < |nets| && p < PACKETS
    requires actions[k].Receive? && actions[k].message.Request?
    ensures var j, m := actions[k].node, actions[k].message;
      && j < |nets[k].nodes| == |nets[e].nodes| && |nets[k].nodes[j].tx.packets| == |m.packets| == PACKETS
      && var n := nets[k].nodes[j];
         Looking(n) && m.version == n.dcb.version && m.page == n.tx.page && m.to == j
         && (m.packets[p] || n.tx.packets[p]) && nets[e].nodes[j].tx.sending.Idle? ==>
         exists i: nat :: k < i < e && SendsAt(nets, actions, i, j, m.version, m.page, p)
  {
    var j, m := actions[k].node, actions[k].message;
    RunIsWalk(w, nets, actions);
    RunKeepsNodes(w, nets, actions, e);
    assert StepAt(w, nets, actions, k);
    var n := nets[k].nodes[j];
    assert NodeOK(w, n) && WellFormed(m);
    if && Looking(n) && m.version == n.dcb.version && m.page == n.tx.page && m.to == j
       && (m.packets[p] || n.tx.packets[p])
    {
      JoinIsOwed(w, n, j, m, p);
      OwedUntilSent(w, nets, actions, k + 1, e, j, m.version, m.page, p);
    }
  }

  lemma JoinIsOwed(w: World, n: Node, j: nat, m: Message, p: nat)
    requires NodeOK(w, n) && m.Request? && WellFormed(m) && p < PACKETS
    requires Looking(n) && m.version == n.dcb.version && m.page == n.tx.page && m.to == j
    requires m.packets[p] || n.tx.packets[p]
    ensures Owes(OnRequest(n, j, m), m.version, m.page, p)
  {
    assert n.mode == Tx;
  }

  /** At its last turn, with nothing left of its snapshot, the loop is left without another look: a request that comes
      then is taken down, and nothing is sent for it. */
  lemma LateRequestIsMissed(w: World, n: Node, j: nat, m: Message)
    requires NodeOK(w, n) && m.Request? && WellFormed(m)
    requires n.tx.sending.Testing? && !Looking(n)
    ensures var after := Tested(OnRequest(n, j, m));
      after.tx.sending.Idle? && after.entry == Entry(Maintain, true)
    ensures m.version == n.dcb.version && m.page == n.tx.page && m.to == j ==>
      forall p :: 0 <= p < PACKETS && m.packets[p] ==> Tested(OnRequest(n, j, m)).tx.packets[p]
  {
    assert n.mode == Tx;
  }

  /** A packet that is wanted, and still ahead in the snapshot, is sent by this scan, with any others in between. */
  lemma {:induction false} SnapshotIsSent(n: Node, me: nat, stale: seq<Byte>, p: nat)
    requires Shaped(n) && n.tx.sending.Scanning? && |stale| == PACKET_SIZE
    requires n.tx.sending.index <= p < PACKETS && n.tx.sending.packets[p] && n.tx.packets[p]
    ensures exists m :: m in Swept(n, me, stale) && Answers(m, n.tx.sending.version, n.tx.sending.page, p)
    decreases p - n.tx.sending.index
  {
    var s := n.tx.sending;
    if s.index == p {
      var bytes := ReadOver(n.store.file, Address(s.page, p), stale);
      var payload := if p == PACKETS - 1
                     then bytes[PACKET_SIZE - 2 := s.crc.low][PACKET_SIZE - 1 := s.crc.high] else bytes;
      var m := Data(s.version, s.page, p, payload, me);
      assert m in ScanSends(n, me, stale) && Answers(m, s.version, s.page, p);
    } else {
      SnapshotIsSent(Scanned(n), me, stale, p);
      var m :| m in Swept(Scanned(n), me, stale) && Answers(m, s.version, s.page, p);
      assert m in Swept(n, me, stale);
    }
  }

  /** Each packet that is sent renews the snapshot of the 16-bit word around it: what has joined there, further up, is
      sent by the same scan. */
  lemma JoinsInWord(n: Node, me: nat, stale: seq<Byte>, p: nat)
    requires Shaped(n) && n.tx.sending.Scanning? && |stale| == PACKET_SIZE
    requires var i := n.tx.sending.index;
      i < p < PACKETS && p / 16 == i / 16 && n.tx.sending.packets[i] && n.tx.packets[p]
    ensures exists m :: m in Swept(n, me, stale) && Answers(m, n.tx.sending.version, n.tx.sending.page, p)
  {
    var next := Scanned(n);
    SnapshotIsSent(next, me, stale, p);
    var m :| m in Swept(next, me, stale) && Answers(m, n.tx.sending.version, n.tx.sending.page, p);
    assert m in Swept(n, me, stale);
  }

  // Rule M.5: a node that overhears the request of another, or its answer, keeps its own back.

  ghost predicate BeginsRound(net: Net, a: Action, j: nat) {
    a == Dispatch(j) && j < |net.nodes| && net.nodes[j].entry.next == Maintain
  }

  /** The rounds that node j begins from the k-th step up to the e-th. */
  ghost function Rounds(nets: seq<Net>, actions: seq<Action>, j: nat, k: nat, e: nat): nat
    requires k <= e <= |actions| <= |nets|
  {
    if k == e then 0
    else Rounds(nets, actions, j, k, e - 1) + (if BeginsRound(nets[e - 1], actions[e - 1], j) then 1 else 0)
  }

  /** For so many rounds the node asks for nothing. */
  ghost predicate Quiet(n: Node, rounds: nat) {
    && n.mode != Rx && n.entry.next != Rx && rounds <= 2
    && (n.heard.request >= rounds || n.heard.data >= rounds)
    && (rounds == 2 ==> n.heard.request >= 2)
  }

  ghost predicate Asking(net: Net, a: Action, j: nat)
    requires Enabled(net, a)
  {
    a.node == j && exists m :: m in Sent(net, a) && m.Request?
  }

  lemma ReceptionIsQuiet(w: World, net: Net, a: Action, j: nat, rounds: nat)
    requires Enabled(net, a) && a.Receive? && a.node == j && Quiet(net.nodes[j], rounds) && 1 <= rounds
    ensures Quiet(After(w, net, a), rounds)
  {
    match a.message
    case Summary(_, _, _, _) => SummaryIsQuiet(net.nodes[j], a.message, a.symmetric, rounds);
    case Profile(_, _, _, _, _) =>
    case Request(_, _, _, _, _) =>
    case Data(_, _, _, _, _) =>
  }

  lemma SummaryIsQuiet(n: Node, m: Message, symmetric: bool, rounds: nat)
    requires m.Summary? && Quiet(n, rounds) && 1 <= rounds
    ensures Quiet(OnSummary(n, m, symmetric), rounds)
  {
  }

  lemma QuietOn(w: World, net: Net, a: Action, j: nat, rounds: nat)
    requires Enabled(net, a) && j < |net.nodes| && Quiet(net.nodes[j], rounds) && 1 <= rounds
    ensures !Asking(net, a, j)
    ensures Quiet(Stepped(w, net, a).nodes[j], rounds - (if BeginsRound(net, a, j) then 1 else 0))
  {
    if a.node == j && a.Receive? {
      ReceptionIsQuiet(w, net, a, j, rounds);
    }
  }

  lemma {:induction false} StaysQuiet(w: World, nets: seq<Net>, actions: seq<Action>, k: nat, e: nat, j: nat,
                                      rounds: nat)
    requires Walk(w, nets, actions) && k <= e <= |actions| && j < |nets[k].nodes|
    requires Quiet(nets[k].nodes[j], rounds) && Rounds(nets, actions, j, k, e) < rounds
    ensures |nets[e].nodes| == |nets[k].nodes|
    ensures Quiet(nets[e].nodes[j], rounds - Rounds(nets, actions, j, k, e))
  {
    if k < e {
      StaysQuiet(w, nets, actions, k, e - 1, j, rounds);
      assert StepAt(w, nets, actions, e - 1);
      QuietOn(w, nets[e - 1], actions[e - 1], j, rounds - Rounds(nets, actions, j, k, e - 1));
    }
  }

  /** The node overhears, while it maintains and is not about to ask, what keeps it quiet for so many rounds: a request
      to another node for a page that it has, or a packet that it does not want of a page up to the one it is at. */
  ghost predicate Overhears(n: Node, j: nat, m: Message, rounds: nat)
    requires m.Data? ==> m.packet < |n.rx.packets|
  {
    && Maintaining(n) && n.entry.next != Rx && m.version == n.dcb.version
    && if m.Request? then m.page < n.dcb.highPage && m.to != j && rounds == 2
       else m.Data? && m.page <= n.dcb.highPage && !Wanted(n, m) && rounds == 1
  }

  /** Until it has begun two rounds after a request, or one after a packet, it asks for nothing itself. */
  lemma OverhearingSuppresses(w: World, nets: seq<Net>, actions: seq<Action>, k: nat, e: nat, rounds: nat)
    requires Sound(w) && Run(w, nets, actions) && k < e < |actions| && actions[k].Receive?
    ensures Enabled(nets[e], actions[e])
    ensures var j, m := actions[k].node, actions[k].message;
      && j < |nets[k].nodes| && (m.Data? ==> m.packet < |nets[k].nodes[j].rx.packets|)
      && (Overhears(nets[k].nodes[j], j, m, rounds) && Rounds(nets, actions, j, k + 1, e) < rounds ==>
            !Asking(nets[e], actions[e], j))
  {
    var j, m := actions[k].node, actions[k].message;
    RunIsWalk(w, nets, actions);
    assert StepAt(w, nets, actions, k) && StepAt(w, nets, actions, e);
    if Overhears(nets[k].nodes[j], j, m, rounds) && Rounds(nets, actions, j, k + 1, e) < rounds {
      OverhearingQuiets(w, nets[k], actions[k], rounds);
      StaysQuiet(w, nets, actions, k + 1, e, j, rounds);
      QuietOn(w, nets[e], actions[e], j, rounds - Rounds(nets, actions, j, k + 1, e));
    }
  }

  lemma OverhearingQuiets(w: World, net: Net, a: Action, rounds: nat)
    requires Enabled(net, a) && a.Receive?
    requires Overhears(net.nodes[a.node], a.node, a.message, rounds)
    ensures Quiet(After(w, net, a), rounds)
  {
  }

  // Rules M.1 and M.4: a node advertises unless it has heard others do so.

  ghost function Hears(a: Action, j: nat, profile: bool): nat {
    if a.Receive? && a.node == j && (if profile then a.message.Profile? else a.message.Summary?) then 1 else 0
  }

  /** How many profiles, or summaries, node j has received from the k-th step up to the e-th. */
  ghost function HeardOf(actions: seq<Action>, j: nat, k: nat, e: nat, profile: bool): nat
    requires k <= e <= |actions|
  {
    if k == e then 0 else HeardOf(actions, j, k, e - 1, profile) + Hears(actions[e - 1], j, profile)
  }

  /** Within a round: what was heard is counted, in eight bits. */
  ghost predicate Counting(n: Node, obsolete: bool, summaries: nat, profiles: nat) {
    && n.mode == Maintain && n.heard.nSummaries == summaries % 256 && n.heard.nProfiles == profiles % 256
    && (n.entry.next == Maintain2 ==> n.heard.obsolete == obsolete)
  }

  lemma CountingOn(w: World, net: Net, a: Action, j: nat, obsolete: bool, summaries: nat, profiles: nat)
    requires Enabled(net, a) && j < |net.nodes| && a != Dispatch(j)
    requires Counting(net.nodes[j], obsolete, summaries, profiles)
    ensures Counting(Stepped(w, net, a).nodes[j], obsolete, summaries + Hears(a, j, false),
                     profiles + Hears(a, j, true))
  {
    if a.node == j {
      assert a.Receive? ==> Received(w, net.nodes[j], a) == After(w, net, a);
      if a.Receive? {
        CountsReception(w, net.nodes[j], a, obsolete, summaries, profiles);
      }
    }
  }

  lemma CountsReception(w: World, n: Node, a: Action, obsolete: bool, summaries: nat, profiles: nat)
    requires a.Receive? && Defined(n, a) && Counting(n, obsolete, summaries, profiles)
    ensures Counting(Received(w, n, a), obsolete, summaries + Hears(a, a.node, false),
                     profiles + Hears(a, a.node, true))
  {
    match a.message
    case Summary(_, _, _, _) => CountsSummary(n, a.message, a.symmetric, obsolete, summaries, profiles);
    case Profile(_, _, _, _, _) =>
    case Request(_, _, _, _, _) =>
    case Data(_, _, _, _, _) => CountsData(w, n, a.message, obsolete, summaries, profiles);
  }

  lemma CountsSummary(n: Node, m: Message, symmetric: bool, obsolete: bool, summaries: nat, profiles: nat)
    requires m.Summary? && Counting(n, obsolete, summaries, profiles)
    ensures Counting(OnSummary(n, m, symmetric), obsolete, summaries + 1, profiles)
  {
  }

  lemma CountsData(w: World, n: Node, m: Message, obsolete: bool, summaries: nat, profiles: nat)
    requires m.Data? && WellFormed(m) && Shaped(n) && (Wanted(n, m) ==> n.dcb.incomingPage < n.dcb.goalPage)
    requires Counting(n, obsolete, summaries, profiles)
    ensures Counting(OnData(w.crc, n, m), obsolete, summaries, profiles)
  {
  }

  lemma RoundBegun(w: World, net: Net, a: Action, j: nat)
    requires Enabled(net, a) && BeginsRound(net, a, j)
    ensures Counting(Stepped(w, net, a).nodes[j], net.nodes[j].heard.obsolete, 0, 0)
  {
  }

  lemma {:induction false} CountsRound(w: World, nets: seq<Net>, actions: seq<Action>, k: nat, e: nat, j: nat)
    requires Walk(w, nets, actions) && k < e <= |actions| && BeginsRound(nets[k], actions[k], j)
    requires forall i :: k < i < e ==> actions[i] != Dispatch(j)
    ensures |nets[e].nodes| == |nets[k].nodes|
    ensures Counting(nets[e].nodes[j], nets[k].nodes[j].heard.obsolete,
                     HeardOf(actions, j, k + 1, e, false), HeardOf(actions, j, k + 1, e, true))
  {
    assert StepAt(w, nets, actions, e - 1);
    if k + 1 == e {
      RoundBegun(w, nets[k], actions[k], j);
    } else {
      CountsRound(w, nets, actions, k, e - 1, j);
      CountingOn(w, nets[e - 1], actions[e - 1], j, nets[k].nodes[j].heard.obsolete,
                 HeardOf(actions, j, k + 1, e - 1, false), HeardOf(actions, j, k + 1, e - 1, true));
    }
  }

  /** What a node has to say in the middle of a round: nothing, if it has heard the same from others. */
  ghost function ToSay(n: Node, j: nat, obsolete: bool, heard: nat): set<Message> {
    if heard % 256 != 0 then {}
    else if obsolete then {Profile(n.dcb.version, n.dcb.codeSize, n.dcb.goalPage, n.dcb.programCrc, j)}
    else {Summary(n.dcb.version, n.dcb.highPage, 0, j)}
  }

  lemma SaysExactly(n: Node, j: nat, obsolete: bool, summaries: nat, profiles: nat)
    requires Counting(n, obsolete, summaries, profiles) && n.entry.next == Maintain2
    ensures DispatchSends(n, j) == ToSay(n, j, obsolete, if obsolete then profiles else summaries)
  {
  }

  /** A round that comes to its middle: the node sends its profile if a neighbour had been found to be obsolete, and its
      summary otherwise, exactly if it has heard none of that kind in the round, or a multiple of 256. */
  lemma AdvertisesExactly(w: World, nets: seq<Net>, actions: seq<Action>, k: nat, e: nat, j: nat)
    requires Sound(w) && Run(w, nets, actions) && k < e < |actions|
    requires actions[k] == actions[e] == Dispatch(j) && forall i :: k < i < e ==> actions[i] != Dispatch(j)
    ensures Enabled(nets[e], actions[e]) && j < |nets[k].nodes| == |nets[e].nodes|
    ensures nets[k].nodes[j].entry.next == Maintain && nets[e].nodes[j].entry.next == Maintain2 ==>
      var obsolete := nets[k].nodes[j].heard.obsolete;
      Sent(nets[e], actions[e]) == ToSay(nets[e].nodes[j], j, obsolete, HeardOf(actions, j, k + 1, e, obsolete))
  {
    RunIsWalk(w, nets, actions);
    assert StepAt(w, nets, actions, k) && StepAt(w, nets, actions, e);
    if nets[k].nodes[j].entry.next == Maintain && nets[e].nodes[j].entry.next == Maintain2 {
      CountsRound(w, nets, actions, k, e, j);
      SaysExactly(nets[e].nodes[j], j, nets[k].nodes[j].heard.obsolete, HeardOf(actions, j, k + 1, e, false),
                  HeardOf(actions, j, k + 1, e, true));
    }
  }

  // Rule R: a node that asks and is not answered asks again, and then gives up.

  /** How often node j has been called upon to ask since it last did anything else. */
  ghost function Tries(nets: seq<Net>, actions: seq<Action>, j: nat, e: nat): nat
    requires e <= |actions| <= |nets|
  {
    if e == 0 then 0
    else if actions[e - 1] != Dispatch(j) || j >= |nets[e - 1].nodes| then Tries(nets, actions, j, e - 1)
    else if nets[e - 1].nodes[j].entry.next == Rx then Tries(nets, actions, j, e - 1) + 1
    else 0
  }

  ghost predicate Trying(n: Node, tries: nat) {
    if n.mode == Rx then n.rx.nRequests == tries % 3
    else tries == 0 && (n.entry.next == Rx ==> n.rx.nRequests == 0)
  }

  lemma TryingOn(w: World, net: Net, a: Action, j: nat, tries: nat)
    requires Enabled(net, a) && j < |net.nodes| && Trying(net.nodes[j], tries)
    ensures Trying(Stepped(w, net, a).nodes[j],
                   if a != Dispatch(j) then tries else if net.nodes[j].entry.next == Rx then tries + 1 else 0)
  {
  }

  lemma {:induction false} CountsTries(w: World, nets: seq<Net>, actions: seq<Action>, e: nat, j: nat)
    requires Walk(w, nets, actions) && e <= |actions| && j < |nets[0].nodes|
    requires forall n <- nets[0].nodes :: n.mode == Unset && n.entry.next == Maintain
    ensures |nets[e].nodes| == |nets[0].nodes| && Trying(nets[e].nodes[j], Tries(nets, actions, j, e))
  {
    if e > 0 {
      CountsTries(w, nets, actions, e - 1, j);
      assert StepAt(w, nets, actions, e - 1);
      TryingOn(w, nets[e - 1], actions[e - 1], j, Tries(nets, actions, j, e - 1));
    }
  }

  /** Called upon for the third time in a row it asks for nothing and begins a round at once, and so for every third
      time; all other times it asks the neighbour that it follows for what it misses of its page. */
  lemma GivesUpExactly(w: World, nets: seq<Net>, actions: seq<Action>, e: nat, j: nat)
    requires Sound(w) && Run(w, nets, actions) && e < |actions| && actions[e] == Dispatch(j)
    ensures Enabled(nets[e], actions[e]) && j < |nets[e].nodes| == |nets[e + 1].nodes|
    ensures nets[e].nodes[j].entry.next == Rx ==>
      var n, third := nets[e].nodes[j], Tries(nets, actions, j, e) % 3 == 2;
      && Sent(nets[e], actions[e]) ==
           (if third then {} else {Request(n.dcb.version, n.dcb.incomingPage, n.rx.packets, n.rx.updater, j)})
      && (third <==> nets[e + 1].nodes[j].entry == Entry(Maintain, true))
  {
    RunIsWalk(w, nets, actions);
    assert StepAt(w, nets, actions, e);
    forall n | n in nets[0].nodes
      ensures n.mode == Unset && n.entry.next == Maintain
    {
      var i :| 0 <= i < |nets[0].nodes| && nets[0].nodes[i] == n;
      assert Booted(w, nets[0].nodes[i]);
    }
    CountsTries(w, nets, actions, e, j);
  }

  // What shows that neighbours differ is answered by a round at once; what shows that they agree is not.

  /** What is heard shows that a neighbour has another version, or other pages, or has already asked for what this node
      has not, or is sending. */
  ghost predicate Differs(n: Node, m: Message) {
    match m
    case Summary(version, highPage, _, _) => version != n.dcb.version || highPage < n.dcb.highPage
    case Profile(_, _, _, _, _) => false
    case Request(version, page, _, _, _) => version != n.dcb.version || page >= n.dcb.highPage
    case Data(_, _, _, _, _) => true
  }

  ghost predicate Agrees(n: Node, m: Message) {
    m.Summary? && m.version == n.dcb.version && m.highPage == n.dcb.highPage && m.dtb <= n.rx.dtb + 1
  }

  lemma DifferenceBeginsRound(w: World, net: Net, a: Action)
    requires Enabled(net, a) && a.Receive? && Maintaining(net.nodes[a.node])
    ensures Differs(net.nodes[a.node], a.message) ==> After(w, net, a).entry == Entry(Maintain, true)
    ensures Agrees(net.nodes[a.node], a.message) ==>
      After(w, net, a).entry == net.nodes[a.node].entry && After(w, net, a).dcb == net.nodes[a.node].dcb
  {
  }

  /** A maintaining node comes to follow a neighbour exactly if that has more pages of the same version, the link is
      good, and nothing has been overheard. */
  lemma FollowsExactly(n: Node, m: Message, symmetric: bool)
    requires m.Summary? && m.dtb == 0 && Maintaining(n) && n.entry.next != Rx
    ensures var after := OnSummary(n, m, symmetric);
      && (after.entry.next == Rx <==>
            && symmetric && m.version == n.dcb.version && m.highPage > n.dcb.highPage
            && n.heard.request == 0 && n.heard.data == 0)
      && (after.entry.next == Rx ==> after.entry.wake && after.rx.updater == m.id && after.rx.nRequests == 0)
  {
  }

  /** Every summary says that its sender is at distance zero, so that the distance a node remembers does not matter. */
  lemma {:induction false} DistanceIsIdle(w: World, nets: seq<Net>, actions: seq<Action>, k: nat, m: Message)
    requires Sound(w) && Walk(w, nets, actions) && nets[0].air == {} && k < |nets| && m in nets[k].air && m.Summary?
    ensures m.dtb == 0
    ensures forall n: Node, d: nat, symmetric ::
      Maintaining(n) ==> OnSummary(n.(rx := n.rx.(dtb := d)), m, symmetric).entry == OnSummary(n, m, symmetric).entry
  {
    if k > 0 {
      assert StepAt(w, nets, actions, k - 1);
      if m in nets[k - 1].air {
        DistanceIsIdle(w, nets, actions, k - 1, m);
      }
    }
  }

  // Checksums of pages.

  /** The bytes of the image that lie on a page. */
  ghost function OnPage(image: seq<Byte>, page: nat): seq<Byte> {
    Window(image, page * PAGE_SIZE, PAGE_SIZE)
  }

  /** The checksum of a page is that of its bytes, unless it is the last page and full: then it is that of nothing. */
  lemma ChecksumCoversExactly(image: seq<Byte>, page: nat, pages: nat)
    requires page < pages && (pages - 1) * PAGE_SIZE < |image| <= pages * PAGE_SIZE
    ensures Window(image, page * PAGE_SIZE, CrcLength(page, pages, |image|)) == OnPage(image, page) <==>
      !(page + 1 == pages && |image| == pages * PAGE_SIZE)
    ensures page + 1 == pages && |image| == pages * PAGE_SIZE ==>
      Window(image, page * PAGE_SIZE, CrcLength(page, pages, |image|)) == []
  {
    if page + 1 < pages {
      Multiples(page + 1, pages - 1);
    } else {
      LastLength(|image|, pages);
    }
  }

  lemma Multiples(m: nat, n: nat)
    requires m <= n
    ensures m * PAGE_SIZE <= n * PAGE_SIZE
  {
  }

  lemma LastLength(length: nat, pages: nat)
    requires 0 < pages && (pages - 1) * PAGE_SIZE < length <= pages * PAGE_SIZE
    ensures length % PAGE_SIZE == if length == pages * PAGE_SIZE then 0 else length - (pages - 1) * PAGE_SIZE
  {
  }

  /** The checksum that came with a page is not that of what is stored. */
  ghost predicate Fails(crc: seq<Byte> -> Word, n: Node, p: nat)
    requires p < |n.store.pageCrcs|
  {
    n.store.pageCrcs[p] != crc(OnPage(n.store.file, p))
  }

  /** When the last page has come and the program checksum fails, what is needed again is exactly what was and every
      page whose checksum fails; reception resumes at the first of those, or at page 0 if there is none. */
  lemma RestartsExactly(crc: seq<Byte> -> Word, n: Node)
    requires Shaped(n) && n.dcb.incomingPage < n.dcb.goalPage && PageCheck(crc, n) && !ProgramCheck(crc, n)
    requires MovedToNextPage(n.dcb).incomingPage == n.dcb.goalPage
    ensures var dcb, goal := PageClosed(crc, n).dcb, n.dcb.goalPage;
      && dcb.highPage == dcb.incomingPage && dcb.version == n.dcb.version && |dcb.pagesNeeded| == PAGES
      && (forall p: nat :: p < goal ==>
            (dcb.pagesNeeded[p] <==> (p != n.dcb.incomingPage && n.dcb.pagesNeeded[p]) || Fails(crc, n, p)))
      && (if forall p: nat :: p < goal ==> !Fails(crc, n, p) then dcb.incomingPage == 0
          else dcb.incomingPage < goal && Fails(crc, n, dcb.incomingPage)
               && forall p: nat :: p < dcb.incomingPage ==> !Fails(crc, n, p))
  {
    var moved := MovedToNextPage(n.dcb);
    var goal := moved.goalPage;
    var first := FirstBad(crc, n.store.file, n.store.pageCrcs, goal);
    assert PageClosed(crc, n).dcb == BadPagesFound(crc, n.store.file, n.store.pageCrcs, moved);
    forall p: nat | p < goal
      ensures Fails(crc, n, p) <==> BadPage(crc, n.store.file, n.store.pageCrcs, p)
    {
    }
    if first < goal {
      assert Fails(crc, n, first);
    }
  }

  /** While it receives, others that ask or send keep a node waiting to ask again, even if it had just given up. */
  lemma OthersKeepWaiting(w: World, net: Net, a: Action)
    requires Enabled(net, a) && a.Receive? && net.nodes[a.node].mode == Rx
    ensures a.message.Request? || (a.message.Data? && !Wanted(net.nodes[a.node], a.message)) ==>
      After(w, net, a).entry == net.nodes[a.node].entry.(next := Rx)
  {
  }

  /** A node that gains pages from a packet, and is not sending, begins a round at once, to say so. */
  lemma GainBeginsRound(w: World, net: Net, a: Action)
    requires Enabled(net, a) && a.Receive? && a.message.Data?
    requires var n := net.nodes[a.node]; Maintaining(n) || n.mode == Rx
    ensures After(w, net, a).dcb.highPage > net.nodes[a.node].dcb.highPage ==>
      After(w, net, a).entry == Entry(Maintain, true)
  {
  }
}

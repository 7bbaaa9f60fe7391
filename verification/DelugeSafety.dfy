/** What holds in every network that Deluge nodes can reach. */
module DelugeSafety {
  import opened DelugeNode
  import opened DelugeNetwork

  // Each handler keeps the invariant.

  lemma SummaryKeeps(w: World, n: Node, m: Message, symmetric: bool)
    requires NodeOK(w, n) && m.Summary?
    ensures NodeOK(w, OnSummary(n, m, symmetric))
  {
  }

  lemma ProfileKeeps(w: World, n: Node, m: Message, blank: seq<Byte>)
    requires NodeOK(w, n) && m.Profile? && Truthful(w, m) && |blank| == m.codeSize
    ensures NodeOK(w, OnProfile(n, m, blank))
  {
  }

  lemma BelowHighPage(w: World, dcb: Block, file: seq<Byte>, page: nat)
    requires BlockOK(w, dcb, file) && page < dcb.highPage
    ensures Serves(w, dcb, file, page)
  {
    assert !dcb.pagesNeeded[page];
  }

  lemma RequestKeeps(w: World, n: Node, me: nat, m: Message)
    requires NodeOK(w, n) && m.Request? && |m.packets| == PACKETS
    ensures NodeOK(w, OnRequest(n, me, m))
  {
    var after := OnRequest(n, me, m);
    assert after.dcb == n.dcb && after.store.file == n.store.file;
    assert IncomingOK(w, after.dcb, after.store.file, after.rx.packets, after.rx.crc);
    if Maintaining(n) {
      assert n.tx.sending.Idle?;
      if m.page < n.dcb.highPage {
        BelowHighPage(w, n.dcb, n.store.file, m.page);
      }
    } else {
      assert SendingOK(w, after.dcb, after.store.file, after.tx.page, after.tx.sending);
    }
  }

  /** A data packet taken from the air puts the publisher's bytes where they belong. */
  lemma StoreKeeps(w: World, n: Node, m: Message)
    requires NodeOK(w, n) && m.Data? && Truthful(w, m) && Wanted(n, m)
    ensures n.dcb.incomingPage < n.dcb.goalPage
    ensures NodeOK(w, PacketStored(n, m))
  {
    var r := w.releases[n.dcb.version];
    var stored := PacketStored(n, m);
    var at := Address(m.page, m.packet);
    var bytes := if m.packet == PACKETS - 1 then m.payload[..PACKET_SIZE - 2] else m.payload;
    assert stored.store.file == Written(n.store.file, at, bytes);
    forall p | 0 <= p < r.pages && HasPage(n.store.file, r.image, p)
      ensures HasPage(stored.store.file, r.image, p)
    {
      WriteAgrees(n.store.file, r.image, at, bytes, Start(p), Start(p + 1));
    }
    forall k | 0 <= k < PACKETS && !stored.rx.packets[k]
      ensures HasPacket(stored.store.file, r.image, m.page, k)
    {
      var lo := Address(m.page, k);
      WriteAgrees(n.store.file, r.image, at, bytes, lo, lo + PacketBytes(k));
    }
  }

  /** The checksum of a page whose packets have all arrived is the publisher's. */
  lemma CheckPasses(w: World, n: Node)
    requires NodeOK(w, n) && n.dcb.incomingPage < n.dcb.goalPage && None(n.rx.packets)
    ensures HasPage(n.store.file, w.releases[n.dcb.version].image, n.dcb.incomingPage)
    ensures PageCheck(w.crc, n)
  {
    var r := w.releases[n.dcb.version];
    forall k | 0 <= k < PACKETS
      ensures HasPacket(n.store.file, r.image, n.dcb.incomingPage, k)
    {
      assert !n.rx.packets[k];
    }
    PacketsMakePage(n.store.file, r.image, n.dcb.incomingPage);
    assert !n.rx.packets[PACKETS - 1];
    ReleaseCrcOfPage(w, n, n.dcb.incomingPage);
  }

  lemma MoveKeeps(w: World, n: Node)
    requires NodeOK(w, n) && n.dcb.incomingPage < n.dcb.goalPage
    requires HasPage(n.store.file, w.releases[n.dcb.version].image, n.dcb.incomingPage)
    ensures NodeOK(w, AllWanted(n.(dcb := MovedToNextPage(n.dcb))))
  {
    var dcb := MovedToNextPage(n.dcb);
    var page := n.dcb.incomingPage;
    forall p | 0 <= p < dcb.highPage
      ensures !dcb.pagesNeeded[p]
    {
      if page < p {
        assert p < NextNeeded(n.dcb.pagesNeeded[page := false], page, n.dcb.goalPage);
      }
    }
  }

  lemma BadPagesKeep(w: World, n: Node)
    requires NodeOK(w, n) && n.dcb.incomingPage == n.dcb.goalPage
    ensures NodeOK(w, AllWanted(n.(dcb := BadPagesFound(w.crc, n.store.file, n.store.pageCrcs, n.dcb))))
  {
  }

  lemma CloseKeeps(w: World, n: Node)
    requires NodeOK(w, n) && n.dcb.incomingPage < n.dcb.goalPage && None(n.rx.packets)
    ensures NodeOK(w, PageClosed(w.crc, n))
  {
    CheckPasses(w, n);
    MoveKeeps(w, n);
    var moved := AllWanted(n.(dcb := MovedToNextPage(n.dcb)));
    if moved.dcb.incomingPage == moved.dcb.goalPage {
      BadPagesKeep(w, moved);
    }
  }

  lemma TakeKeeps(w: World, n: Node, m: Message)
    requires NodeOK(w, n) && m.Data? && Truthful(w, m) && Wanted(n, m)
    ensures n.dcb.incomingPage < n.dcb.goalPage
    ensures NodeOK(w, Stored(w.crc, n, m))
  {
    StoreKeeps(w, n, m);
    if None(PacketStored(n, m).rx.packets) {
      CloseKeeps(w, PacketStored(n, m));
    }
  }

  lemma HeardKeeps(w: World, n: Node, m: Message, closing: bool)
    requires NodeOK(w, n) && m.Data?
    ensures NodeOK(w, HeardData(n, m, closing))
  {
  }

  lemma DataKeeps(w: World, n: Node, m: Message)
    requires NodeOK(w, n) && m.Data? && Truthful(w, m)
    ensures Wanted(n, m) ==> n.dcb.incomingPage < n.dcb.goalPage
    ensures NodeOK(w, OnData(w.crc, n, m))
  {
    if Wanted(n, m) {
      TakeKeeps(w, n, m);
      HeardKeeps(w, Stored(w.crc, n, m), m, Closing(w.crc, n, m));
    } else {
      HeardKeeps(w, n, m, false);
    }
  }

  lemma DispatchKeeps(w: World, n: Node)
    requires NodeOK(w, n) && n.entry.next != Ignore && n.tx.sending.Idle?
    ensures NodeOK(w, Dispatched(w.crc, n))
  {
    if n.entry.next == Tx && !None(n.tx.packets) {
      ReleaseCrcOfPage(w, n, n.tx.page);
    }
  }

  lemma ScanKeeps(w: World, n: Node)
    requires NodeOK(w, n) && n.tx.sending.Scanning?
    ensures NodeOK(w, Scanned(n))
  {
  }

  lemma TestKeeps(w: World, n: Node)
    requires NodeOK(w, n) && n.tx.sending.Testing?
    ensures NodeOK(w, Tested(n))
  {
  }

  lemma ReadCarries(file: seq<Byte>, image: seq<Byte>, page: nat, packet: nat, stale: seq<Byte>)
    requires HasPage(file, image, page) && packet < PACKETS && |stale| == PACKET_SIZE
    ensures forall j :: 0 <= j < PacketBytes(packet) && Address(page, packet) + j < |image| ==>
      ReadOver(file, Address(page, packet), stale)[j] == image[Address(page, packet) + j]
  {
    var at := Address(page, packet);
    forall i | at <= i < at + PacketBytes(packet) && i < |image|
      ensures file[i] == image[i]
    {
      assert Start(page) <= i < Start(page + 1);
    }
  }

  /** A node sends nothing but the truth. */
  lemma ScanIsTruthful(w: World, n: Node, me: nat, stale: seq<Byte>)
    requires NodeOK(w, n) && n.tx.sending.Scanning? && |stale| == PACKET_SIZE
    ensures forall m <- ScanSends(n, me, stale) :: Truthful(w, m)
  {
    var r := w.releases[n.dcb.version];
    var s := n.tx.sending;
    if s.index < PACKETS {
      ReadCarries(n.store.file, r.image, s.page, s.index, stale);
    }
  }

  lemma DispatchIsTruthful(w: World, n: Node, me: nat)
    requires NodeOK(w, n)
    ensures forall m <- DispatchSends(n, me) :: Truthful(w, m)
  {
  }

  // Every run.

  /** Nothing that the scheduler or the medium can choose is out of bounds. */
  lemma AlwaysDefined(w: World, net: Net, a: Action)
    requires Invariant(w, net) && Possible(net, a)
    ensures Enabled(net, a)
  {
    var n := net.nodes[a.node];
    assert NodeOK(w, n);
    if a.Receive? {
      assert Truthful(w, a.message);
      if a.message.Data? && WellFormed(a.message) && Wanted(n, a.message) {
        StoreKeeps(w, n, a.message);
      }
    }
  }

  lemma NodeKeeps(w: World, net: Net, a: Action)
    requires Invariant(w, net) && Enabled(net, a)
    ensures NodeOK(w, After(w, net, a))
  {
    var n := net.nodes[a.node];
    assert NodeOK(w, n);
    match a
    case Dispatch(_) => DispatchKeeps(w, n);
    case Alarm(_) =>
    case Test(_) => TestKeeps(w, n);
    case Scan(_, _) => ScanKeeps(w, n);
    case Receive(_, m, symmetric, blank) =>
      assert Truthful(w, m);
      match m
      case Summary(_, _, _, _) => SummaryKeeps(w, n, m, symmetric);
      case Profile(_, _, _, _, _) => ProfileKeeps(w, n, m, blank);
      case Request(_, _, _, _, _) => RequestKeeps(w, n, a.node, m);
      case Data(_, _, _, _, _) => DataKeeps(w, n, m);
  }

  lemma SentIsTruthful(w: World, net: Net, a: Action)
    requires Invariant(w, net) && Enabled(net, a)
    ensures forall m <- Sent(net, a) :: Truthful(w, m)
  {
    var n := net.nodes[a.node];
    assert NodeOK(w, n);
    if a.Dispatch? {
      DispatchIsTruthful(w, n, a.node);
    } else if a.Scan? {
      ScanIsTruthful(w, n, a.node, a.stale);
    }
  }

  lemma StepKeeps(w: World, net: Net, a: Action)
    requires Invariant(w, net) && Enabled(net, a)
    ensures Invariant(w, Stepped(w, net, a))
  {
    NodeKeeps(w, net, a);
    SentIsTruthful(w, net, a);
  }

  lemma InitialIsSafe(w: World, net: Net)
    requires Sound(w) && Initial(w, net)
    ensures Invariant(w, net)
  {
    forall i | 0 <= i < |net.nodes|
      ensures NodeOK(w, net.nodes[i])
    {
      assert Booted(w, net.nodes[i]);
    }
  }

  /** Every network on every run satisfies the invariant. */
  lemma {:induction false} RunIsSafe(w: World, nets: seq<Net>, actions: seq<Action>, k: nat)
    requires Sound(w) && Run(w, nets, actions) && k < |nets|
    ensures Invariant(w, nets[k])
  {
    if k == 0 {
      InitialIsSafe(w, nets[0]);
    } else {
      RunIsSafe(w, nets, actions, k - 1);
      StepKeeps(w, nets[k - 1], actions[k - 1]);
    }
  }

  // What this means to the owner of the network.

  lemma BytesBelow(w: World, dcb: Block, file: seq<Byte>, a: nat)
    requires BlockOK(w, dcb, file) && a < |file| && a < Start(dcb.highPage)
    ensures file[a] == w.releases[dcb.version].image[a]
  {
    var p := a / PAGE_SIZE;
    BelowHighPage(w, dcb, file, p);
    assert Start(p) <= a < Start(p + 1);
  }

  lemma WholeImage(w: World, dcb: Block, file: seq<Byte>)
    requires Sound(w) && BlockOK(w, dcb, file) && dcb.highPage == dcb.goalPage
    ensures file == w.releases[dcb.version].image
  {
    forall a | 0 <= a < |file|
      ensures file[a] == w.releases[dcb.version].image[a]
    {
      BytesBelow(w, dcb, file, a);
    }
  }

  /** What a node counts as received, below its highPage, is the publisher's image. */
  lemma StoredBytes(w: World, nets: seq<Net>, actions: seq<Action>, k: nat, i: nat, a: nat)
    requires Sound(w) && Run(w, nets, actions) && k < |nets| && i < |nets[k].nodes|
    ensures var n := nets[k].nodes[i];
      && n.dcb.version in w.releases
      && |n.store.file| == |w.releases[n.dcb.version].image|
      && (a < |n.store.file| && a < Start(n.dcb.highPage) ==> n.store.file[a] == w.releases[n.dcb.version].image[a])
  {
    RunIsSafe(w, nets, actions, k);
    var n := nets[k].nodes[i];
    assert NodeOK(w, n);
    if a < |n.store.file| && a < Start(n.dcb.highPage) {
      BytesBelow(w, n.dcb, n.store.file, a);
    }
  }

  /** A node that has reached its goal holds the release, all of it. */
  lemma CompleteMeansWhole(w: World, nets: seq<Net>, actions: seq<Action>, k: nat, i: nat)
    requires Sound(w) && Run(w, nets, actions) && k < |nets| && i < |nets[k].nodes|
    requires nets[k].nodes[i].dcb.highPage == nets[k].nodes[i].dcb.goalPage
    ensures nets[k].nodes[i].dcb.version in w.releases
    ensures nets[k].nodes[i].store.file == w.releases[nets[k].nodes[i].dcb.version].image
  {
    RunIsSafe(w, nets, actions, k);
    assert NodeOK(w, nets[k].nodes[i]);
    WholeImage(w, nets[k].nodes[i].dcb, nets[k].nodes[i].store.file);
  }

  /** Every data packet on the air carries the publisher's bytes, of a page the release has. */
  lemma AirIsTruthful(w: World, nets: seq<Net>, actions: seq<Action>, k: nat, m: Message)
    requires Sound(w) && Run(w, nets, actions) && k < |nets| && m in nets[k].air && m.Data?
    ensures m.version in w.releases && Carries(w, w.releases[m.version], m.page, m.packet, m.payload)
  {
    RunIsSafe(w, nets, actions, k);
    assert Truthful(w, m);
  }

  /** The packet that closes a page never makes the page's checksum fail. */
  lemma PageCheckNeverFails(w: World, nets: seq<Net>, actions: seq<Action>, k: nat, i: nat, m: Message)
    requires Sound(w) && Run(w, nets, actions) && k < |nets| && i < |nets[k].nodes|
    requires m in nets[k].air && m.Data? && Defined(nets[k].nodes[i], Receive(i, m, true, []))
    requires Wanted(nets[k].nodes[i], m)
    ensures Closing(w.crc, nets[k].nodes[i], m) <==> None(PacketStored(nets[k].nodes[i], m).rx.packets)
  {
    RunIsSafe(w, nets, actions, k);
    var n := nets[k].nodes[i];
    assert NodeOK(w, n) && Truthful(w, m);
    StoreKeeps(w, n, m);
    if None(PacketStored(n, m).rx.packets) {
      CheckPasses(w, PacketStored(n, m));
    }
  }

  /** When the last page closes, the program checksum passes exactly if the release was published
      with the checksum of its image. */
  lemma ProgramCheckOutcome(w: World, n: Node)
    requires Sound(w) && NodeOK(w, n) && n.dcb.incomingPage < n.dcb.goalPage && None(n.rx.packets)
    requires MovedToNextPage(n.dcb).incomingPage == n.dcb.goalPage
    ensures ProgramCheck(w.crc, n) <==>
      w.releases[n.dcb.version].crc == w.crc(w.releases[n.dcb.version].image)
    ensures PageClosed(w.crc, n).dcb.highPage == n.dcb.goalPage <==> ProgramCheck(w.crc, n)
  {
    CheckPasses(w, n);
    MoveKeeps(w, n);
    WholeImage(w, MovedToNextPage(n.dcb), n.store.file);
  }

  // Progress is never undone.

  /** The release was published with the checksum of its image. */
  ghost predicate Honest(w: World, version: nat) {
    version in w.releases && w.releases[version].crc == w.crc(w.releases[version].image)
  }

  /** Versions do not fall; pages of one version are not lost if its release is honest. */
  ghost predicate NotBehind(w: World, before: Block, after: Block) {
    && before.version <= after.version
    && (before.version == after.version && Honest(w, before.version) ==> before.highPage <= after.highPage)
  }

  lemma DataAdvances(w: World, n: Node, m: Message)
    requires Sound(w) && NodeOK(w, n) && m.Data? && Truthful(w, m) && Wanted(n, m)
    ensures n.dcb.incomingPage < n.dcb.goalPage
    ensures NotBehind(w, n.dcb, Stored(w.crc, n, m).dcb)
  {
    StoreKeeps(w, n, m);
    var stored := PacketStored(n, m);
    if None(stored.rx.packets) && MovedToNextPage(n.dcb).incomingPage == n.dcb.goalPage {
      ProgramCheckOutcome(w, stored);
    }
  }

  lemma StepAdvances(w: World, net: Net, a: Action)
    requires Sound(w) && Invariant(w, net) && Enabled(net, a)
    ensures NotBehind(w, net.nodes[a.node].dcb, After(w, net, a).dcb)
  {
    var n := net.nodes[a.node];
    assert NodeOK(w, n);
    if a.Receive? && a.message.Data? {
      assert Truthful(w, a.message);
      if Wanted(n, a.message) {
        DataAdvances(w, n, a.message);
      }
    }
  }

  lemma RunKeepsNodes(w: World, nets: seq<Net>, actions: seq<Action>, k: nat)
    requires Run(w, nets, actions) && k < |nets|
    ensures |nets[k].nodes| == |nets[0].nodes|
  {
    if k > 0 {
      RunKeepsNodes(w, nets, actions, k - 1);
    }
  }

  /** Versions never fall, and within a version whose release is honest pages are never lost. */
  lemma {:induction false} RunAdvances(w: World, nets: seq<Net>, actions: seq<Action>, j: nat, k: nat, i: nat)
    requires Sound(w) && Run(w, nets, actions) && j <= k < |nets| && i < |nets[0].nodes|
    ensures |nets[j].nodes| == |nets[k].nodes| == |nets[0].nodes|
    ensures NotBehind(w, nets[j].nodes[i].dcb, nets[k].nodes[i].dcb)
    decreases k
  {
    RunKeepsNodes(w, nets, actions, j);
    RunKeepsNodes(w, nets, actions, k);
    if j < k {
      RunAdvances(w, nets, actions, j, k - 1, i);
      RunIsSafe(w, nets, actions, k - 1);
      var before := nets[k - 1];
      var a := actions[k - 1];
      assert Enabled(before, a) && nets[k] == Stepped(w, before, a);
      StepAdvances(w, before, a);
    }
  }
}

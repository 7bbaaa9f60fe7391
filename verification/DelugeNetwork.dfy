/** Any number of Deluge nodes and a medium that may lose, repeat and reorder what it carries. */
module DelugeNetwork {
  import opened DelugeNode

  /** What was published under a version number. */
  datatype Release = Release(image: seq<Byte>, pages: nat, crc: Word)

  datatype World = World(releases: map<nat, Release>, crc: seq<Byte> -> Word)

  /** air holds every message ever sent; a message in it may be received any number of times, or never. */
  datatype Net = Net(nodes: seq<Node>, air: set<Message>)

  datatype Action =
    | Dispatch(node: nat)
    | Alarm(node: nat)
    | Test(node: nat)
    | Scan(node: nat, stale: seq<Byte>)
    | Receive(node: nat, message: Message, symmetric: bool, blank: seq<Byte>)

  ghost predicate Sound(w: World) {
    forall v <- w.releases ::
      w.releases[v].pages <= PAGES && |w.releases[v].image| <= w.releases[v].pages * PAGE_SIZE
  }

  /** A node that holds a release and has just been started. */
  ghost predicate Booted(w: World, n: Node) {
    && Shaped(n) && n.dcb.version in w.releases
    && var r := w.releases[n.dcb.version];
    && n.store.file == r.image && n.dcb.codeSize == |r.image| && n.dcb.programCrc == r.crc
    && n.dcb.goalPage == n.dcb.incomingPage == n.dcb.highPage == r.pages
    && n.dcb.pagesNeeded == All(PAGES, false)
    && n.rx.packets == All(PACKETS, true) && n.tx.packets == All(PACKETS, false)
    && n.mode == Unset && n.entry.next == Maintain && n.tx.sending.Idle?
  }

  ghost predicate Initial(w: World, net: Net) {
    net.air == {} && forall i :: 0 <= i < |net.nodes| ==> Booted(w, net.nodes[i])
  }

  /** The scheduler and the medium are free to choose any of these. */
  ghost predicate Possible(net: Net, a: Action) {
    && a.node < |net.nodes|
    && var n := net.nodes[a.node];
    && match a
       case Dispatch(_) => n.entry.wake && n.entry.next != Ignore && n.tx.sending.Idle?
       case Alarm(_) => true
       case Test(_) => n.tx.sending.Testing?
       case Scan(_, stale) => n.tx.sending.Scanning? && |stale| == PACKET_SIZE
       case Receive(_, m, _, blank) => m in net.air && (m.Profile? ==> |blank| == m.codeSize)
  }

  /** The step stays within the tables it indexes. */
  ghost predicate Defined(n: Node, a: Action) {
    && Shaped(n)
    && (a.Receive? ==>
          && WellFormed(a.message)
          && (a.message.Data? && Wanted(n, a.message) ==> n.dcb.incomingPage < n.dcb.goalPage))
  }

  ghost predicate Enabled(net: Net, a: Action) {
    Possible(net, a) && Defined(net.nodes[a.node], a)
  }

  ghost function Received(w: World, n: Node, a: Action): Node
    requires a.Receive? && Defined(n, a)
  {
    match a.message
    case Summary(_, _, _, _) => OnSummary(n, a.message, a.symmetric)
    case Profile(_, _, _, _, _) => OnProfile(n, a.message, a.blank)
    case Request(_, _, _, _, _) => OnRequest(n, a.node, a.message)
    case Data(_, _, _, _, _) => OnData(w.crc, n, a.message)
  }

  ghost function After(w: World, net: Net, a: Action): Node
    requires Enabled(net, a)
  {
    var n := net.nodes[a.node];
    match a
    case Dispatch(_) => Dispatched(w.crc, n)
    case Alarm(_) => n.(entry := n.entry.(wake := true))
    case Test(_) => Tested(n)
    case Scan(_, _) => Scanned(n)
    case Receive(_, _, _, _) => Received(w, n, a)
  }

  ghost function Sent(net: Net, a: Action): set<Message>
    requires Enabled(net, a)
  {
    match a
    case Dispatch(i) => DispatchSends(net.nodes[i], i)
    case Scan(i, stale) => ScanSends(net.nodes[i], i, stale)
    case _ => {}
  }

  ghost function Stepped(w: World, net: Net, a: Action): Net
    requires Enabled(net, a)
  {
    Net(net.nodes[a.node := After(w, net, a)], net.air + Sent(net, a))
  }

  /** The networks along a run, from an initial one on. */
  ghost predicate Run(w: World, nets: seq<Net>, actions: seq<Action>) {
    && |nets| == |actions| + 1 && Initial(w, nets[0])
    && forall k :: 0 <= k < |actions| ==> Enabled(nets[k], actions[k]) && nets[k + 1] == Stepped(w, nets[k], actions[k])
  }

  // What every reachable network satisfies.

  /** The two files agree on the bytes from lo up to hi. */
  ghost predicate Agree(file: seq<Byte>, image: seq<Byte>, lo: nat, hi: nat) {
    |file| == |image| && forall i :: lo <= i < hi && i < |image| ==> file[i] == image[i]
  }

  function Start(page: nat): nat {
    page * PAGE_SIZE
  }

  ghost predicate HasPage(file: seq<Byte>, image: seq<Byte>, page: nat) {
    Agree(file, image, Start(page), Start(page + 1))
  }

  function PacketBytes(packet: nat): nat {
    if packet == PACKETS - 1 then PACKET_SIZE - 2 else PACKET_SIZE
  }

  ghost predicate HasPacket(file: seq<Byte>, image: seq<Byte>, page: nat, packet: nat) {
    Agree(file, image, Address(page, packet), Address(page, packet) + PacketBytes(packet))
  }

  ghost function ReleaseCrc(w: World, r: Release, page: nat): Word {
    w.crc(Window(r.image, Start(page), CrcLength(page, r.pages, |r.image|)))
  }

  /** The bytes a data packet must carry. */
  ghost predicate Carries(w: World, r: Release, page: nat, packet: nat, payload: seq<Byte>) {
    && page < r.pages && packet < PACKETS && |payload| == PACKET_SIZE
    && (forall j :: 0 <= j < PacketBytes(packet) && Address(page, packet) + j < |r.image| ==>
          payload[j] == r.image[Address(page, packet) + j])
    && (packet == PACKETS - 1 ==>
          Word(payload[PACKET_SIZE - 2], payload[PACKET_SIZE - 1]) == ReleaseCrc(w, r, page))
  }

  ghost predicate Truthful(w: World, m: Message) {
    && WellFormed(m) && m.version in w.releases
    && var r := w.releases[m.version];
    && (m.Profile? ==> m.codeSize == |r.image| && m.goalPage == r.pages && m.crc == r.crc)
    && (m.Data? ==> Carries(w, r, m.page, m.packet, m.payload))
  }

  /** The control block describes the release, and marks a page as not needed only if it is stored. */
  ghost predicate BlockOK(w: World, dcb: Block, file: seq<Byte>) {
    && |dcb.pagesNeeded| == PAGES && dcb.version in w.releases
    && var r := w.releases[dcb.version];
    && |file| == |r.image| == dcb.codeSize && dcb.programCrc == r.crc && dcb.goalPage == r.pages <= PAGES
    && dcb.incomingPage == dcb.highPage <= r.pages
    && (forall p :: 0 <= p < r.pages && !dcb.pagesNeeded[p] ==> HasPage(file, r.image, p))
    && (forall p :: 0 <= p < dcb.highPage ==> !dcb.pagesNeeded[p])
  }

  /** A packet is marked as received only if it is stored, and the page's checksum only came from the publisher. */
  ghost predicate IncomingOK(w: World, dcb: Block, file: seq<Byte>, incoming: seq<bool>, incomingCrc: Word)
    requires BlockOK(w, dcb, file)
  {
    var r := w.releases[dcb.version];
    && |incoming| == PACKETS
    && (dcb.incomingPage == r.pages ==> incoming == All(PACKETS, true))
    && (forall k :: 0 <= k < PACKETS && !incoming[k] ==> HasPacket(file, r.image, dcb.incomingPage, k))
    && (!incoming[PACKETS - 1] ==> incomingCrc == ReleaseCrc(w, r, dcb.incomingPage))
  }

  ghost predicate Serves(w: World, dcb: Block, file: seq<Byte>, page: nat)
    requires BlockOK(w, dcb, file)
  {
    page < w.releases[dcb.version].pages && HasPage(file, w.releases[dcb.version].image, page)
  }

  /** Whatever is being sent is a page this node holds. */
  ghost predicate SendingOK(w: World, dcb: Block, file: seq<Byte>, outgoingPage: nat, sending: Sending)
    requires BlockOK(w, dcb, file)
  {
    !sending.Idle? ==>
      && |sending.packets| == PACKETS
      && (sending.Scanning? ==> sending.index <= PACKETS)
      && (sending.Scanning? || !None(sending.packets) ==>
            && sending.version == dcb.version && sending.page == outgoingPage && Serves(w, dcb, file, sending.page)
            && sending.crc == ReleaseCrc(w, w.releases[dcb.version], sending.page))
  }

  /** Transmission is entered only for a page this node holds, or for no packets at all. */
  ghost predicate ModeOK(w: World, n: Node)
    requires BlockOK(w, n.dcb, n.store.file)
  {
    && (n.entry.next == Tx && !None(n.tx.packets) ==> Serves(w, n.dcb, n.store.file, n.tx.page))
    && (n.mode == Tx ==> n.entry.next != Tx)
    && (!n.tx.sending.Idle? ==> n.mode == Tx)
  }

  ghost predicate NodeOK(w: World, n: Node) {
    && BlockOK(w, n.dcb, n.store.file)
    && IncomingOK(w, n.dcb, n.store.file, n.rx.packets, n.rx.crc)
    && SendingOK(w, n.dcb, n.store.file, n.tx.page, n.tx.sending)
    && ModeOK(w, n)
    && |n.store.pageCrcs| == PAGES && |n.tx.packets| == PACKETS
  }

  ghost predicate Invariant(w: World, net: Net) {
    && (forall i :: 0 <= i < |net.nodes| ==> NodeOK(w, net.nodes[i]))
    && (forall m <- net.air :: Truthful(w, m))
  }

  // Files and images.

  lemma WindowAgrees(file: seq<Byte>, image: seq<Byte>, page: nat, length: nat)
    requires HasPage(file, image, page) && length <= PAGE_SIZE
    ensures Window(file, Start(page), length) == Window(image, Start(page), length)
  {
    var at := Start(page);
    assert at + length <= Start(page + 1);
    if at < |file| {
      var end := if at + length > |file| then |file| else at + length;
      forall i | at <= i < end
        ensures file[i] == image[i]
      {
      }
      assert file[at..end] == image[at..end];
    }
  }

  lemma ReleaseCrcOfPage(w: World, n: Node, page: nat)
    requires BlockOK(w, n.dcb, n.store.file) && HasPage(n.store.file, w.releases[n.dcb.version].image, page)
    ensures PageCrc(w.crc, n.store.file, page, n.dcb) == ReleaseCrc(w, w.releases[n.dcb.version], page)
  {
    var r := w.releases[n.dcb.version];
    WindowAgrees(n.store.file, r.image, page, CrcLength(page, r.pages, |r.image|));
  }

  /** The packets of a page make up the page. */
  lemma {:induction false} PacketsMakePage(file: seq<Byte>, image: seq<Byte>, page: nat)
    requires |file| == |image|
    requires forall k :: 0 <= k < PACKETS ==> HasPacket(file, image, page, k)
    ensures HasPage(file, image, page)
  {
    forall i | Start(page) <= i < Start(page + 1) && i < |image|
      ensures file[i] == image[i]
    {
      var k := (i - Start(page)) / PACKET_SIZE;
      assert HasPacket(file, image, page, k);
      assert Address(page, k) <= i < Address(page, k) + PacketBytes(k);
    }
  }

  /** Writing bytes of the image keeps what already agrees and adds what was written. */
  lemma WriteAgrees(file: seq<Byte>, image: seq<Byte>, at: nat, bytes: seq<Byte>, lo: nat, hi: nat)
    requires |file| == |image|
    requires forall j :: 0 <= j < |bytes| && at + j < |image| ==> bytes[j] == image[at + j]
    requires Agree(file, image, lo, hi) || (at <= lo && hi <= at + |bytes|)
    ensures Agree(Written(file, at, bytes), image, lo, hi)
  {
    var after := Written(file, at, bytes);
    forall i | lo <= i < hi && i < |image|
      ensures after[i] == image[i]
    {
      if at <= i < at + |bytes| {
        assert bytes[i - at] == image[at + (i - at)];
      }
    }
  }
}

/** One Deluge node (the home instance) as functions: what each handler and each dispatched state does. */
module DelugeNode {
  const PACKETS := 48
  const PACKET_SIZE := 56
  const PAGE_SIZE := PACKETS * PACKET_SIZE - 2
  const PAGES := 48
  const LAMBDA := 2
  const K := 1
  const FARTHEST := 255

  type Byte = x: int | 0 <= x < 256

  /** A 16-bit checksum as it lies in memory and in a packet. */
  datatype Word = Word(low: Byte, high: Byte)

  datatype Message =
    | Summary(version: nat, highPage: nat, dtb: nat, id: nat)
    | Profile(version: nat, codeSize: nat, goalPage: nat, crc: Word, id: nat)
    | Request(version: nat, page: nat, packets: seq<bool>, to: nat, id: nat)
    | Data(version: nat, page: nat, packet: nat, payload: seq<Byte>, id: nat)

  datatype Mode = Unset | Maintain | Maintain2 | Rx | Tx | Ignore

  /** The control block. */
  datatype Block = Block(codeSize: nat, programCrc: Word, pagesNeeded: seq<bool>, version: nat,
                         incomingPage: nat, highPage: nat, goalPage: nat)

  /** Where the transmitting thread stands: about to test its loop, or inside the scan of the page. */
  datatype Sending =
    | Idle
    | Testing(version: nat, page: nat, crc: Word, packets: seq<bool>)
    | Scanning(version: nat, page: nat, crc: Word, packets: seq<bool>, index: nat)

  datatype Store = Store(file: seq<Byte>, pageCrcs: seq<Word>)

  /** The dispatcher's entry: the state to take next, and whether to take it now. */
  datatype Entry = Entry(next: Mode, wake: bool)

  /** What was overheard. */
  datatype Heard = Heard(nSummaries: nat, nProfiles: nat, obsolete: bool, request: nat, data: nat)

  datatype Reception = Reception(updater: nat, packets: seq<bool>, crc: Word, nRequests: nat, dtb: nat)

  datatype Transmission = Transmission(page: nat, packets: seq<bool>, sending: Sending)

  datatype Node = Node(dcb: Block, store: Store, entry: Entry, mode: Mode, heard: Heard, rx: Reception,
                       tx: Transmission)

  function All(n: nat, value: bool): (r: seq<bool>)
    ensures |r| == n && forall i :: 0 <= i < n ==> r[i] == value
  {
    seq(n, i => value)
  }

  predicate None(bits: seq<bool>) {
    forall i :: 0 <= i < |bits| ==> !bits[i]
  }

  predicate Shaped(n: Node) {
    && |n.dcb.pagesNeeded| == PAGES && |n.store.pageCrcs| == PAGES
    && |n.rx.packets| == PACKETS && |n.tx.packets| == PACKETS
    && (!n.tx.sending.Idle? ==> |n.tx.sending.packets| == PACKETS)
    && (n.tx.sending.Scanning? ==> n.tx.sending.index <= PACKETS)
    && n.dcb.goalPage <= PAGES
  }

  predicate WellFormed(m: Message) {
    && (m.Request? ==> |m.packets| == PACKETS)
    && (m.Data? ==> m.packet < PACKETS && |m.payload| == PACKET_SIZE)
    && (m.Profile? ==> m.goalPage <= PAGES)
  }

  // Files: reads, writes and checksums stop at the end of the file.

  function Address(page: nat, packet: nat): nat {
    page * PAGE_SIZE + packet * PACKET_SIZE
  }

  function Written(file: seq<Byte>, at: nat, bytes: seq<Byte>): (r: seq<Byte>)
    ensures |r| == |file|
    ensures forall i :: 0 <= i < |file| ==> r[i] == if at <= i < at + |bytes| then bytes[i - at] else file[i]
  {
    seq(|file|, i requires 0 <= i < |file| => if at <= i < at + |bytes| then bytes[i - at] else file[i])
  }

  function Window(file: seq<Byte>, at: nat, length: nat): seq<Byte> {
    if at >= |file| then [] else if at + length > |file| then file[at..] else file[at..at + length]
  }

  /** Reading into a buffer leaves the part past the end of the file as it was. */
  function ReadOver(file: seq<Byte>, at: nat, stale: seq<Byte>): (r: seq<Byte>)
    ensures |r| == |stale|
    ensures forall j :: 0 <= j < |stale| ==> r[j] == if at + j < |file| then file[at + j] else stale[j]
  {
    seq(|stale|, j requires 0 <= j < |stale| => if at + j < |file| then file[at + j] else stale[j])
  }

  function CrcLength(page: nat, goalPage: nat, codeSize: nat): nat {
    if page + 1 == goalPage then codeSize % PAGE_SIZE else PAGE_SIZE
  }

  function PageCrc(crc: seq<Byte> -> Word, file: seq<Byte>, page: nat, dcb: Block): Word {
    crc(Window(file, page * PAGE_SIZE, CrcLength(page, dcb.goalPage, dcb.codeSize)))
  }

  // Pages.

  /** The page the search stops at: the next one still needed, or the goal. The bit looked at past the
      end of the table, when there are as many pages as bits, makes no difference. */
  function NextNeeded(needed: seq<bool>, page: nat, goal: nat): (next: nat)
    ensures page < next && (page < goal ==> next <= goal)
    ensures forall p :: page < p < next && p < |needed| ==> !needed[p]
    decreases goal - page
  {
    if page + 1 >= goal || (page + 1 < |needed| && needed[page + 1]) then page + 1
    else NextNeeded(needed, page + 1, goal)
  }

  function MovedToNextPage(dcb: Block): Block
    requires dcb.incomingPage < |dcb.pagesNeeded|
  {
    var needed := dcb.pagesNeeded[dcb.incomingPage := false];
    var next := NextNeeded(needed, dcb.incomingPage, dcb.goalPage);
    dcb.(pagesNeeded := needed, incomingPage := next, highPage := next)
  }

  predicate BadPage(crc: seq<Byte> -> Word, file: seq<Byte>, pageCrcs: seq<Word>, page: nat)
    requires page < |pageCrcs|
  {
    pageCrcs[page] != crc(Window(file, page * PAGE_SIZE, PAGE_SIZE))
  }

  /** The first bad page below n, or n itself. */
  function FirstBad(crc: seq<Byte> -> Word, file: seq<Byte>, pageCrcs: seq<Word>, n: nat): (first: nat)
    requires n <= |pageCrcs|
    ensures first <= n && (first < n ==> BadPage(crc, file, pageCrcs, first))
    ensures forall p :: 0 <= p < first ==> !BadPage(crc, file, pageCrcs, p)
  {
    if n == 0 then 0
    else
      var first := FirstBad(crc, file, pageCrcs, n - 1);
      if first < n - 1 || BadPage(crc, file, pageCrcs, n - 1) then first else n
  }

  function MarkedBad(crc: seq<Byte> -> Word, file: seq<Byte>, pageCrcs: seq<Word>, needed: seq<bool>, n: nat)
    : (r: seq<bool>)
    requires n <= |pageCrcs| && n <= |needed|
    ensures |r| == |needed|
    ensures forall p :: 0 <= p < |needed| ==> r[p] == (needed[p] || (p < n && BadPage(crc, file, pageCrcs, p)))
  {
    seq(|needed|, p requires 0 <= p < |needed| => needed[p] || (p < n && BadPage(crc, file, pageCrcs, p)))
  }

  /** After a program checksum that fails: reception resumes at the first bad page, or at page 0. */
  function BadPagesFound(crc: seq<Byte> -> Word, file: seq<Byte>, pageCrcs: seq<Word>, dcb: Block): Block
    requires dcb.goalPage <= |pageCrcs| && dcb.goalPage <= |dcb.pagesNeeded|
  {
    var first := FirstBad(crc, file, pageCrcs, dcb.goalPage);
    var page := if first == dcb.goalPage then 0 else first;
    dcb.(pagesNeeded := MarkedBad(crc, file, pageCrcs, dcb.pagesNeeded, dcb.goalPage),
         incomingPage := page, highPage := page)
  }

  // The handlers.

  predicate Maintaining(n: Node) {
    n.mode == Maintain || n.mode == Maintain2
  }

  function Transition(n: Node, mode: Mode): Node {
    n.(entry := Entry(mode, true))
  }

  function TimeoutSet(n: Node, mode: Mode): Node {
    n.(entry := n.entry.(next := mode))
  }

  /** A neighbour has more pages of the same version: it becomes the one to ask. */
  function Following(n: Node, m: Message): Node
    requires m.Summary?
  {
    var rx := n.rx.(updater := m.id, dtb := m.dtb + 1);
    if n.heard.request == 0 && n.heard.data == 0 then Transition(n.(rx := rx.(nRequests := 0)), Rx) else n.(rx := rx)
  }

  function Disagreeing(n: Node, m: Message): Node
    requires m.Summary?
  {
    Transition(n.(heard := n.heard.(obsolete := n.heard.obsolete || m.version < n.dcb.version)), Maintain)
  }

  function OnSummary(n: Node, m: Message, symmetric: bool): Node
    requires m.Summary?
  {
    if !Maintaining(n) then n
    else
      var n1 := n.(heard := n.heard.(nSummaries := (n.heard.nSummaries + 1) % 256));
      if symmetric && m.version == n.dcb.version && m.highPage > n.dcb.highPage && m.dtb < FARTHEST
      then Following(n1, m)
      else if m.version != n.dcb.version || m.highPage != n.dcb.highPage || m.dtb > n.rx.dtb + 1
      then Disagreeing(n1, m)
      else n1
  }

  /** A new version starts from nothing; blank is whatever the newly created file holds. */
  function Adopted(n: Node, m: Message, blank: seq<Byte>): Node
    requires m.Profile?
  {
    n.(dcb := Block(m.codeSize, m.crc, All(PAGES, true), m.version, 0, 0, m.goalPage),
       store := n.store.(file := blank),
       rx := n.rx.(packets := All(PACKETS, true), dtb := FARTHEST),
       tx := n.tx.(packets := All(PACKETS, false)))
  }

  function OnProfile(n: Node, m: Message, blank: seq<Byte>): Node
    requires m.Profile?
  {
    if !Maintaining(n) then n
    else
      var n1 := n.(heard := n.heard.(nProfiles := (n.heard.nProfiles + 1) % 256));
      if m.version > n.dcb.version then Adopted(n1, m, blank) else n1
  }

  function Union(a: seq<bool>, b: seq<bool>): (r: seq<bool>)
    requires |a| == |b|
    ensures |r| == |a| && forall i :: 0 <= i < |a| ==> r[i] == (a[i] || b[i])
  {
    seq(|a|, i requires 0 <= i < |a| => a[i] || b[i])
  }

  function OnRequest(n: Node, me: nat, m: Message): Node
    requires m.Request? && |m.packets| == |n.tx.packets|
  {
    if Maintaining(n) then
      if m.version == n.dcb.version && m.page < n.dcb.highPage then
        if m.to == me then Transition(n.(tx := n.tx.(page := m.page, packets := m.packets)), Tx)
        else n.(heard := n.heard.(request := 2))
      else Transition(n, Maintain)
    else if n.mode == Rx then TimeoutSet(n, Rx)
    else if n.mode == Tx && m.version == n.dcb.version && m.page == n.tx.page && m.to == me then
      n.(tx := n.tx.(packets := Union(n.tx.packets, m.packets)))
    else n
  }

  /** A packet is taken when it belongs to the page being received and is still missing. */
  predicate Wanted(n: Node, m: Message)
    requires m.Data? && m.packet < |n.rx.packets|
  {
    m.version == n.dcb.version && m.page == n.dcb.incomingPage && n.rx.packets[m.packet]
  }

  function PacketStored(n: Node, m: Message): Node
    requires Shaped(n) && WellFormed(m) && m.Data?
    requires n.dcb.incomingPage < n.dcb.goalPage
  {
    var page := n.dcb.incomingPage;
    var packets := n.rx.packets[m.packet := false];
    if m.packet == PACKETS - 1 then
      var crc := Word(m.payload[PACKET_SIZE - 2], m.payload[PACKET_SIZE - 1]);
      n.(store := Store(Written(n.store.file, Address(page, m.packet), m.payload[..PACKET_SIZE - 2]),
                        n.store.pageCrcs[page := crc]),
         rx := n.rx.(packets := packets, crc := crc))
    else
      n.(store := n.store.(file := Written(n.store.file, Address(page, m.packet), m.payload)),
         rx := n.rx.(packets := packets))
  }

  function AllWanted(n: Node): Node {
    n.(rx := n.rx.(packets := All(PACKETS, true)))
  }

  predicate PageCheck(crc: seq<Byte> -> Word, n: Node) {
    n.rx.crc == PageCrc(crc, n.store.file, n.dcb.incomingPage, n.dcb)
  }

  predicate ProgramCheck(crc: seq<Byte> -> Word, n: Node) {
    n.dcb.programCrc == crc(n.store.file)
  }

  /** All packets of the page are there. */
  function PageClosed(crc: seq<Byte> -> Word, n: Node): Node
    requires Shaped(n) && n.dcb.incomingPage < n.dcb.goalPage
  {
    if !PageCheck(crc, n) then AllWanted(n)
    else
      var dcb1 := MovedToNextPage(n.dcb);
      var dcb := if dcb1.incomingPage == dcb1.goalPage && !ProgramCheck(crc, n)
                 then BadPagesFound(crc, n.store.file, n.store.pageCrcs, dcb1) else dcb1;
      AllWanted(n.(dcb := dcb))
  }

  predicate Closing(crc: seq<Byte> -> Word, n: Node, m: Message)
    requires Shaped(n) && WellFormed(m) && m.Data?
    requires n.dcb.incomingPage < n.dcb.goalPage
  {
    var n1 := PacketStored(n, m);
    None(n1.rx.packets) && PageCheck(crc, n1)
  }

  function Stored(crc: seq<Byte> -> Word, n: Node, m: Message): Node
    requires Shaped(n) && WellFormed(m) && m.Data?
    requires n.dcb.incomingPage < n.dcb.goalPage
  {
    var stored := PacketStored(n, m);
    if None(stored.rx.packets) then PageClosed(crc, stored) else stored
  }

  /** What a data packet does to the state machine, whether or not it was stored. */
  function HeardData(n: Node, m: Message, closing: bool): Node
    requires m.Data?
  {
    if Maintaining(n) then
      var heard := m.version == n.dcb.version && m.page <= n.dcb.highPage;
      Transition(n.(heard := n.heard.(data := if heard then 1 else n.heard.data)), Maintain)
    else if n.mode == Rx then
      if closing then Transition(n, Maintain) else TimeoutSet(n, Rx)
    else n
  }

  function OnData(crc: seq<Byte> -> Word, n: Node, m: Message): Node
    requires Shaped(n) && WellFormed(m) && m.Data?
    requires Wanted(n, m) ==> n.dcb.incomingPage < n.dcb.goalPage
  {
    if Wanted(n, m) then HeardData(Stored(crc, n, m), m, Closing(crc, n, m)) else HeardData(n, m, false)
  }

  // The dispatched states.

  function Taken(n: Node): Node {
    n.(mode := n.entry.next, entry := Entry(Ignore, false))
  }

  function Less(n: nat): nat {
    if n > 0 then n - 1 else 0
  }

  function DoMaintain1(n: Node): Node {
    TimeoutSet(n.(heard := Heard(0, 0, n.heard.obsolete, Less(n.heard.request), Less(n.heard.data))), Maintain2)
  }

  function DoMaintain2(n: Node): Node {
    TimeoutSet(n.(heard := n.heard.(obsolete := false)), Maintain)
  }

  function Advertisement(n: Node, me: nat): set<Message> {
    if n.heard.obsolete then
      if n.heard.nProfiles < K
      then {Profile(n.dcb.version, n.dcb.codeSize, n.dcb.goalPage, n.dcb.programCrc, me)} else {}
    else if n.heard.nSummaries < K then {Summary(n.dcb.version, n.dcb.highPage, 0, me)} else {}
  }

  function DoRx(n: Node): Node {
    if n.rx.nRequests < LAMBDA then TimeoutSet(n.(rx := n.rx.(nRequests := n.rx.nRequests + 1)), Rx)
    else Transition(n.(rx := n.rx.(nRequests := 0, dtb := FARTHEST)), Maintain)
  }

  function Ask(n: Node, me: nat): set<Message> {
    if n.rx.nRequests < LAMBDA then {Request(n.dcb.version, n.dcb.incomingPage, n.rx.packets, n.rx.updater, me)} else {}
  }

  /** Transmission starts from a snapshot of what is wanted and of the page's checksum. */
  function DoTx(crc: seq<Byte> -> Word, n: Node): Node {
    var sum := PageCrc(crc, n.store.file, n.tx.page, n.dcb);
    n.(tx := n.tx.(sending := Testing(n.dcb.version, n.tx.page, sum, n.tx.packets)))
  }

  /** The dispatching thread takes the node to its next state. */
  function Dispatched(crc: seq<Byte> -> Word, n: Node): Node {
    var n1 := Taken(n);
    match n1.mode
    case Maintain => DoMaintain1(n1)
    case Maintain2 => DoMaintain2(n1)
    case Rx => DoRx(n1)
    case Tx => DoTx(crc, n1)
    case _ => n1
  }

  function DispatchSends(n: Node, me: nat): set<Message> {
    match n.entry.next
    case Maintain2 => Advertisement(n, me)
    case Rx => Ask(n, me)
    case _ => {}
  }

  /** The head of the transmission loop. */
  function Tested(n: Node): Node
    requires n.tx.sending.Testing?
  {
    var s := n.tx.sending;
    if n.mode == Tx && !None(s.packets) then
      n.(tx := n.tx.(sending := Scanning(s.version, s.page, s.crc, s.packets, 0)))
    else Transition(n.(tx := n.tx.(sending := Idle)), Maintain)
  }

  /** The bits of the 16-bit word around bit i come from b, the others from a. */
  function WordFrom(a: seq<bool>, b: seq<bool>, i: nat): (r: seq<bool>)
    requires |a| == |b|
    ensures |r| == |a|
    ensures forall j :: 0 <= j < |a| ==> r[j] == if j / 16 == i / 16 then b[j] else a[j]
  {
    seq(|a|, j requires 0 <= j < |a| => if j / 16 == i / 16 then b[j] else a[j])
  }

  /** One turn of the scan; after the last the wanted packets are read again. */
  function Scanned(n: Node): Node
    requires Shaped(n) && n.tx.sending.Scanning?
  {
    var s := n.tx.sending;
    if s.index == PACKETS then n.(tx := n.tx.(sending := Testing(s.version, s.page, s.crc, n.tx.packets)))
    else if s.packets[s.index] then
      var outgoing := n.tx.packets[s.index := false];
      n.(tx := Transmission(n.tx.page, outgoing,
               Scanning(s.version, s.page, s.crc, WordFrom(s.packets, outgoing, s.index), s.index + 1)))
    else n.(tx := n.tx.(sending := s.(index := s.index + 1)))
  }

  /** stale is what the packet buffer held before. */
  function ScanSends(n: Node, me: nat, stale: seq<Byte>): set<Message>
    requires Shaped(n) && n.tx.sending.Scanning? && |stale| == PACKET_SIZE
  {
    var s := n.tx.sending;
    if s.index == PACKETS || !s.packets[s.index] then {}
    else
      var bytes := ReadOver(n.store.file, Address(s.page, s.index), stale);
      var payload := if s.index == PACKETS - 1
                     then bytes[PACKET_SIZE - 2 := s.crc.low][PACKET_SIZE - 1 := s.crc.high] else bytes;
      {Data(s.version, s.page, s.index, payload, me)}
  }
}

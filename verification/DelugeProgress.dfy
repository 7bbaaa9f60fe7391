/** What one exchange between two Deluge nodes achieves: a request is answered, and the answer completes a page. */
module DelugeProgress {
  import opened DelugeNode
  import opened DelugeNetwork
  import opened DelugeSafety

  // The sender.

  /** Everything sent from here to the end of the scan, when nothing comes in between. */
  ghost function Swept(n: Node, me: nat, stale: seq<Byte>): set<Message>
    requires Shaped(n) && n.tx.sending.Scanning? && |stale| == PACKET_SIZE
    decreases PACKETS - n.tx.sending.index
  {
    if n.tx.sending.index == PACKETS then {} else ScanSends(n, me, stale) + Swept(Scanned(n), me, stale)
  }

  ghost predicate Answers(m: Message, version: nat, page: nat, packet: nat) {
    m.Data? && m.version == version && m.page == page && m.packet == packet
  }

  /** The scan and the wanted packets agree from here on. */
  ghost predicate InStep(n: Node)
    requires Shaped(n) && n.tx.sending.Scanning?
  {
    forall k :: n.tx.sending.index <= k < PACKETS ==> n.tx.sending.packets[k] == n.tx.packets[k]
  }

  /** Every packet that is wanted is sent. */
  lemma {:induction false} SweepAnswers(n: Node, me: nat, stale: seq<Byte>, k: nat)
    requires Shaped(n) && n.tx.sending.Scanning? && |stale| == PACKET_SIZE && InStep(n)
    requires n.tx.sending.index <= k < PACKETS && n.tx.packets[k]
    ensures exists m :: m in Swept(n, me, stale) && Answers(m, n.tx.sending.version, n.tx.sending.page, k)
    decreases k - n.tx.sending.index
  {
    var s := n.tx.sending;
    if s.index == k {
      var bytes := ReadOver(n.store.file, Address(s.page, k), stale);
      var payload := if k == PACKETS - 1
                     then bytes[PACKET_SIZE - 2 := s.crc.low][PACKET_SIZE - 1 := s.crc.high] else bytes;
      var m := Data(s.version, s.page, k, payload, me);
      assert s.packets[k] && m in ScanSends(n, me, stale);
      assert Answers(m, s.version, s.page, k) && m in Swept(n, me, stale);
    } else {
      var next := Scanned(n);
      SweepAnswers(next, me, stale, k);
      var m :| m in Swept(next, me, stale) && Answers(m, s.version, s.page, k);
      assert m in Swept(n, me, stale);
    }
  }

  lemma {:induction false} SweepIsTruthful(w: World, n: Node, me: nat, stale: seq<Byte>)
    requires NodeOK(w, n) && Shaped(n) && n.tx.sending.Scanning? && |stale| == PACKET_SIZE
    ensures forall m <- Swept(n, me, stale) :: Truthful(w, m) && m.Data?
    decreases PACKETS - n.tx.sending.index
  {
    if n.tx.sending.index < PACKETS {
      ScanIsTruthful(w, n, me, stale);
      ScanKeeps(w, n);
      SweepIsTruthful(w, Scanned(n), me, stale);
    }
  }

  /** A node that is asked for a page it has starts to send it. */
  ghost function Serving(w: World, n: Node, me: nat, request: Message): Node
    requires NodeOK(w, n) && request.Request? && WellFormed(request)
  {
    Dispatched(w.crc, OnRequest(n, me, request))
  }

  lemma ServingStarts(w: World, n: Node, me: nat, request: Message)
    requires NodeOK(w, n) && Maintaining(n) && request.Request? && WellFormed(request) && !None(request.packets)
    requires request.to == me && request.version == n.dcb.version && request.page < n.dcb.highPage
    ensures var serving := Serving(w, n, me, request);
      && NodeOK(w, serving) && serving.tx.sending.Testing? && Tested(serving).tx.sending.Scanning?
      && NodeOK(w, Tested(serving)) && Shaped(Tested(serving)) && InStep(Tested(serving))
      && Tested(serving).tx.packets == request.packets && Tested(serving).tx.sending.index == 0
      && Tested(serving).tx.sending.version == request.version && Tested(serving).tx.sending.page == request.page
  {
    RequestKeeps(w, n, me, request);
    DispatchKeeps(w, OnRequest(n, me, request));
    TestKeeps(w, Serving(w, n, me, request));
  }

  // The receiver.

  /** The data packets come in one after the other. */
  ghost function Fed(w: World, n: Node, messages: seq<Message>): (r: Node)
    requires NodeOK(w, n) && forall m <- messages :: Truthful(w, m) && m.Data?
    ensures NodeOK(w, r)
    decreases |messages|
  {
    if messages == [] then n
    else
      DataKeeps(w, n, messages[0]);
      Fed(w, OnData(w.crc, n, messages[0]), messages[1..])
  }

  /** A packet that closes the page moves the node on. */
  lemma ClosingMoves(w: World, n: Node, m: Message)
    requires Sound(w) && Honest(w, n.dcb.version) && NodeOK(w, n) && Truthful(w, m) && m.Data? && Wanted(n, m)
    ensures n.dcb.incomingPage < n.dcb.goalPage
    ensures var after := OnData(w.crc, n, m);
      after.dcb.version == n.dcb.version &&
      if None(PacketStored(n, m).rx.packets) then after.dcb.highPage > n.dcb.highPage
      else after.dcb == n.dcb && after.rx.packets == n.rx.packets[m.packet := false]
  {
    StoreKeeps(w, n, m);
    var stored := PacketStored(n, m);
    if None(stored.rx.packets) {
      CheckPasses(w, stored);
      if MovedToNextPage(stored.dcb).incomingPage == stored.dcb.goalPage {
        ProgramCheckOutcome(w, stored);
      }
    }
  }

  lemma {:induction false} FedNotBehind(w: World, n: Node, messages: seq<Message>)
    requires Sound(w) && Honest(w, n.dcb.version) && NodeOK(w, n) && forall m <- messages :: Truthful(w, m) && m.Data?
    ensures Fed(w, n, messages).dcb.version == n.dcb.version && Fed(w, n, messages).dcb.highPage >= n.dcb.highPage
    decreases |messages|
  {
    if messages != [] {
      var m := messages[0];
      DataKeeps(w, n, m);
      if Wanted(n, m) {
        ClosingMoves(w, n, m);
      }
      FedNotBehind(w, OnData(w.crc, n, m), messages[1..]);
    }
  }

  ghost predicate Covers(messages: seq<Message>, n: Node)
    requires |n.rx.packets| == PACKETS
  {
    forall k :: 0 <= k < PACKETS && n.rx.packets[k] ==>
      exists i :: 0 <= i < |messages| && Answers(messages[i], n.dcb.version, n.dcb.incomingPage, k)
  }

  /** A packet that is not missed any more need not come again. */
  lemma CoversOn(messages: seq<Message>, n: Node, next: Node)
    requires |n.rx.packets| == |next.rx.packets| == PACKETS && messages != [] && Covers(messages, n)
    requires next.dcb == n.dcb
    requires forall k :: 0 <= k < PACKETS && next.rx.packets[k] ==>
      n.rx.packets[k] && !Answers(messages[0], n.dcb.version, n.dcb.incomingPage, k)
    ensures Covers(messages[1..], next)
  {
    var rest := messages[1..];
    forall k | 0 <= k < PACKETS && next.rx.packets[k]
      ensures exists i :: 0 <= i < |rest| && Answers(rest[i], next.dcb.version, next.dcb.incomingPage, k)
    {
      var i :| 0 <= i < |messages| && Answers(messages[i], n.dcb.version, n.dcb.incomingPage, k);
      assert rest[i - 1] == messages[i];
    }
  }

  /** Once every missing packet has come, in whatever order and with whatever else, the page is complete. */
  lemma {:induction false} PageCompletes(w: World, n: Node, messages: seq<Message>)
    requires Sound(w) && Honest(w, n.dcb.version) && NodeOK(w, n) && forall m <- messages :: Truthful(w, m) && m.Data?
    requires !None(n.rx.packets) && Covers(messages, n)
    ensures Fed(w, n, messages).dcb.version == n.dcb.version && Fed(w, n, messages).dcb.highPage > n.dcb.highPage
    decreases |messages|
  {
    var k :| 0 <= k < PACKETS && n.rx.packets[k];
    assert messages != [];
    var m, rest := messages[0], messages[1..];
    DataKeeps(w, n, m);
    var next := OnData(w.crc, n, m);
    if Wanted(n, m) {
      ClosingMoves(w, n, m);
    }
    if Wanted(n, m) && None(PacketStored(n, m).rx.packets) {
      FedNotBehind(w, next, rest);
    } else {
      CoversOn(messages, n, next);
      PageCompletes(w, next, rest);
    }
  }

  // The exchange.

  /** What a node sends when it asks for the page it is at. */
  ghost function Asked(n: Node, me: nat): Message {
    Request(n.dcb.version, n.dcb.incomingPage, n.rx.packets, n.rx.updater, me)
  }

  /** The messages are what the scan sends, in any order and any number of times. */
  ghost predicate Delivers(messages: seq<Message>, sending: Node, me: nat, stale: seq<Byte>)
    requires Shaped(sending) && sending.tx.sending.Scanning? && |stale| == PACKET_SIZE
  {
    forall m :: m in messages <==> m in Swept(sending, me, stale)
  }

  lemma AnswersCover(w: World, asker: Node, sending: Node, me: nat, stale: seq<Byte>, messages: seq<Message>)
    requires NodeOK(w, asker) && NodeOK(w, sending) && Shaped(sending) && |stale| == PACKET_SIZE
    requires sending.tx.sending.Scanning? && sending.tx.sending.index == 0 && InStep(sending)
    requires sending.tx.packets == asker.rx.packets
    requires sending.tx.sending.version == asker.dcb.version && sending.tx.sending.page == asker.dcb.incomingPage
    requires Delivers(messages, sending, me, stale)
    ensures Covers(messages, asker) && forall m <- messages :: Truthful(w, m) && m.Data?
  {
    SweepIsTruthful(w, sending, me, stale);
    forall k | 0 <= k < PACKETS && asker.rx.packets[k]
      ensures exists i :: 0 <= i < |messages| && Answers(messages[i], asker.dcb.version, asker.dcb.incomingPage, k)
    {
      SweepAnswers(sending, me, stale, k);
      var m :| m in Swept(sending, me, stale) && Answers(m, asker.dcb.version, asker.dcb.incomingPage, k);
      assert m in messages;
      var i :| 0 <= i < |messages| && messages[i] == m;
    }
  }

  /** A node that asks a neighbour with more pages, is heard, and hears the answer, in whatever order, gets on by at
      least a page. */
  lemma PageTransfer(w: World, asker: Node, holder: Node, a: nat, h: nat, stale: seq<Byte>)
    requires Sound(w) && Honest(w, asker.dcb.version) && NodeOK(w, asker) && NodeOK(w, holder) && |stale| == PACKET_SIZE
    requires asker.dcb.version == holder.dcb.version && asker.dcb.highPage < holder.dcb.highPage
    requires asker.rx.updater == h && asker.rx.nRequests < LAMBDA && !None(asker.rx.packets) && Maintaining(holder)
    ensures var request := Asked(asker, a);
      && Ask(asker, a) == {request} && WellFormed(request)
      && var serving := Serving(w, holder, h, request);
      && serving.tx.sending.Testing?
      && var sending := Tested(serving);
      && Shaped(sending) && sending.tx.sending.Scanning?
      && forall messages | Delivers(messages, sending, h, stale) ::
           && (forall m <- messages :: Truthful(w, m) && m.Data?)
           && Fed(w, asker, messages).dcb.version == asker.dcb.version
           && Fed(w, asker, messages).dcb.highPage > asker.dcb.highPage
  {
    var request := Asked(asker, a);
    ServingStarts(w, holder, h, request);
    var sending := Tested(Serving(w, holder, h, request));
    forall messages | Delivers(messages, sending, h, stale)
      ensures (forall m <- messages :: Truthful(w, m) && m.Data?)
           && Fed(w, asker, messages).dcb.version == asker.dcb.version
           && Fed(w, asker, messages).dcb.highPage > asker.dcb.highPage
    {
      AnswersCover(w, asker, sending, h, stale, messages);
      PageCompletes(w, asker, messages);
    }
  }
}

/** The Deluge instance of one node as the object its handlers update. Bitmaps are sequences of bits, and the
    image file and the table of page checksums, which live in other devices, are their contents. */
module DelugeApp {
  import opened DelugeNode

  class App {
    const id: nat
    const crc: seq<Byte> -> Word
    var dcb: Block
    var store: Store
    var entry: Entry
    var mode: Mode
    var heard: Heard
    var rx: Reception
    var tx: Transmission

    ghost predicate Valid()
      reads this
    {
      Shaped(Contents())
    }

    ghost function Contents(): Node
      reads this
    {
      Node(dcb, store, entry, mode, heard, rx, tx)
    }

    /** A node that starts with a control block and the image it describes. */
    constructor (id: nat, crc: seq<Byte> -> Word, dcb: Block, image: seq<Byte>, pageCrcs: seq<Word>)
      requires |dcb.pagesNeeded| == PAGES && dcb.goalPage <= PAGES && |pageCrcs| == PAGES
      ensures Valid() && this.id == id && this.crc == crc
      ensures this.dcb == dcb && store == Store(image, pageCrcs) && mode == Unset && entry == Entry(Maintain, true)
      ensures rx.packets == All(PACKETS, true) && tx.packets == All(PACKETS, false) && tx.sending.Idle?
      ensures rx.dtb == if dcb.highPage == dcb.goalPage then 0 else FARTHEST
    {
      this.id := id;
      this.crc := crc;
      this.dcb := dcb;
      store := Store(image, pageCrcs);
      entry := Entry(Maintain, true);
      mode := Unset;
      heard := Heard(0, 0, false, 0, 0);
      rx := Reception(0, All(PACKETS, true), Word(0, 0), 0, if dcb.highPage == dcb.goalPage then 0 else FARTHEST);
      tx := Transmission(0, All(PACKETS, false), Idle);
    }

    method StateTransition(state: Mode)
      modifies this`entry
      ensures entry == Entry(state, true)
    {
      entry := entry.(next := state);
      entry := entry.(wake := true);
    }

    method SetTimeout(state: Mode)
      modifies this`entry
      ensures entry == old(entry).(next := state)
    {
      entry := entry.(next := state);
    }

    /** The bit looked at past the end of the table is beyond. */
    method MoveToNextPage(beyond: bool)
      requires Valid() && dcb.incomingPage < dcb.goalPage
      modifies this`dcb
      ensures dcb == MovedToNextPage(old(dcb)) && Valid()
    {
      ghost var first, goal := dcb.incomingPage, dcb.goalPage;
      dcb := dcb.(pagesNeeded := dcb.pagesNeeded[dcb.incomingPage := false]);
      ghost var cleared := dcb;
      dcb := dcb.(incomingPage := dcb.incomingPage + 1);
      var bit := if dcb.incomingPage < PAGES then dcb.pagesNeeded[dcb.incomingPage] else beyond;
      while !bit && dcb.incomingPage < dcb.goalPage
        invariant dcb == cleared.(incomingPage := dcb.incomingPage) && first < dcb.incomingPage <= goal
        invariant dcb.incomingPage < goal ==> bit == dcb.pagesNeeded[dcb.incomingPage]
        invariant NextNeeded(cleared.pagesNeeded, first, goal) ==
          if dcb.incomingPage >= goal || bit then dcb.incomingPage
          else NextNeeded(cleared.pagesNeeded, dcb.incomingPage, goal)
        decreases goal - dcb.incomingPage
      {
        dcb := dcb.(incomingPage := dcb.incomingPage + 1);
        bit := if dcb.incomingPage < PAGES then dcb.pagesNeeded[dcb.incomingPage] else beyond;
      }
      dcb := dcb.(highPage := dcb.incomingPage);
    }

    method FindBadPages()
      requires Valid() && dcb.incomingPage == dcb.goalPage
      modifies this`dcb
      ensures dcb == BadPagesFound(crc, store.file, store.pageCrcs, old(dcb)) && Valid()
    {
      ghost var before := dcb;
      for page := 0 to dcb.goalPage
        invariant dcb == before.(pagesNeeded := dcb.pagesNeeded, incomingPage := dcb.incomingPage)
        invariant dcb.pagesNeeded == MarkedBad(crc, store.file, store.pageCrcs, before.pagesNeeded, page)
        invariant var first := FirstBad(crc, store.file, store.pageCrcs, page);
          dcb.incomingPage == if first == page then before.goalPage else first
      {
        if store.pageCrcs[page] != crc(Window(store.file, page * PAGE_SIZE, PAGE_SIZE)) {
          dcb := dcb.(pagesNeeded := dcb.pagesNeeded[page := true]);
          if dcb.incomingPage == dcb.goalPage {
            dcb := dcb.(incomingPage := page);
          }
        }
      }
      if dcb.incomingPage == dcb.goalPage {
        dcb := dcb.(incomingPage := 0);
      }
      dcb := dcb.(highPage := dcb.incomingPage);
    }

    method HandleSummary(m: Message, symmetric: bool)
      requires Valid() && m.Summary?
      modifies this`heard, this`rx, this`entry
      ensures Valid() && Contents() == OnSummary(old(Contents()), m, symmetric)
    {
      if mode == Maintain || mode == Maintain2 {
        heard := heard.(nSummaries := (heard.nSummaries + 1) % 256);
        if symmetric && m.version == dcb.version && m.highPage > dcb.highPage && m.dtb < FARTHEST {
          rx := rx.(updater := m.id, dtb := m.dtb + 1);
          if heard.request == 0 && heard.data == 0 {
            rx := rx.(nRequests := 0);
            StateTransition(Rx);
          }
        } else if m.version != dcb.version || m.highPage != dcb.highPage || m.dtb > rx.dtb + 1 {
          if m.version < dcb.version {
            heard := heard.(obsolete := true);
          }
          StateTransition(Maintain);
        }
      }
    }

    /** file is what the newly created image file holds. */
    method HandleProfile(m: Message, file: seq<Byte>)
      requires Valid() && m.Profile? && WellFormed(m)
      modifies this`heard, this`dcb, this`store, this`rx, this`tx
      ensures Valid() && Contents() == OnProfile(old(Contents()), m, file)
    {
      if mode == Maintain || mode == Maintain2 {
        heard := heard.(nProfiles := (heard.nProfiles + 1) % 256);
        if m.version > dcb.version {
          dcb := dcb.(codeSize := m.codeSize, version := m.version, incomingPage := 0, highPage := 0,
                      goalPage := m.goalPage, programCrc := m.crc);
          tx := tx.(packets := All(PACKETS, false));
          rx := rx.(dtb := FARTHEST);
          dcb := dcb.(pagesNeeded := All(PAGES, true));
          store := store.(file := file);
          rx := rx.(packets := All(PACKETS, true));
        }
      }
    }

    method HandleRequest(m: Message)
      requires Valid() && m.Request? && WellFormed(m)
      modifies this`heard, this`entry, this`tx
      ensures Valid() && Contents() == OnRequest(old(Contents()), id, m)
    {
      if mode == Maintain || mode == Maintain2 {
        if m.version == dcb.version && m.page < dcb.highPage {
          if m.to == id {
            tx := tx.(page := m.page, packets := m.packets);
            StateTransition(Tx);
          } else {
            heard := heard.(request := 2);
          }
        } else {
          StateTransition(Maintain);
        }
      } else if mode == Rx {
        SetTimeout(Rx);
      } else if mode == Tx && m.version == dcb.version && m.page == tx.page && m.to == id {
        tx := tx.(packets := Union(tx.packets, m.packets));
      }
    }

    method StorePacket(m: Message)
      requires Valid() && m.Data? && WellFormed(m) && dcb.incomingPage < dcb.goalPage
      modifies this`store, this`rx
      ensures Valid() && Contents() == PacketStored(old(Contents()), m)
    {
      var at := m.packet * PACKET_SIZE + dcb.incomingPage * PAGE_SIZE;
      if m.packet == PACKETS - 1 {
        rx := rx.(crc := Word(m.payload[PACKET_SIZE - 2], m.payload[PACKET_SIZE - 1]));
        store := store.(file := Written(store.file, at, m.payload[..PACKET_SIZE - 2]));
        store := store.(pageCrcs := store.pageCrcs[dcb.incomingPage := rx.crc]);
      } else {
        store := store.(file := Written(store.file, at, m.payload));
      }
      rx := rx.(packets := rx.packets[m.packet := false]);
    }

    /** All packets of the page have come: the checksums decide. */
    method ClosePage(beyond: bool) returns (completed: bool)
      requires Valid() && dcb.incomingPage < dcb.goalPage
      modifies this`dcb, this`rx
      ensures Valid() && Contents() == PageClosed(crc, old(Contents()))
      ensures completed == PageCheck(crc, old(Contents()))
    {
      var length := if dcb.incomingPage + 1 == dcb.goalPage then dcb.codeSize % PAGE_SIZE else PAGE_SIZE;
      completed := rx.crc == crc(Window(store.file, dcb.incomingPage * PAGE_SIZE, length));
      if completed {
        MoveToNextPage(beyond);
        if dcb.incomingPage == dcb.goalPage && dcb.programCrc != crc(store.file) {
          FindBadPages();
        }
      }
      rx := rx.(packets := All(PACKETS, true));
    }

    method HandleData(m: Message, beyond: bool)
      requires Valid() && m.Data? && WellFormed(m)
      requires Wanted(Contents(), m) ==> dcb.incomingPage < dcb.goalPage
      modifies this`dcb, this`store, this`rx, this`heard, this`entry
      ensures Valid() && Contents() == OnData(crc, old(Contents()), m)
    {
      var completed := false;
      if m.version == dcb.version && m.page == dcb.incomingPage && rx.packets[m.packet] {
        StorePacket(m);
        if None(rx.packets) {
          completed := ClosePage(beyond);
        }
      }
      if mode == Maintain || mode == Maintain2 {
        if m.version == dcb.version && m.page <= dcb.highPage {
          heard := heard.(data := 1);
        }
        StateTransition(Maintain);
      } else if mode == Rx {
        if completed {
          StateTransition(Maintain);
        } else {
          SetTimeout(Rx);
        }
      }
    }

    method DoMaintain1()
      modifies this`heard, this`entry
      ensures Contents() == DelugeNode.DoMaintain1(old(Contents()))
    {
      heard := heard.(nSummaries := 0, nProfiles := 0);
      if heard.request > 0 {
        heard := heard.(request := heard.request - 1);
      }
      if heard.data > 0 {
        heard := heard.(data := heard.data - 1);
      }
      SetTimeout(Maintain2);
    }

    method DoMaintain2() returns (sent: set<Message>)
      modifies this`heard, this`entry
      ensures Contents() == DelugeNode.DoMaintain2(old(Contents()))
      ensures sent == Advertisement(old(Contents()), id)
    {
      sent := {};
      if heard.obsolete {
        heard := heard.(obsolete := false);
        if heard.nProfiles < K {
          sent := {Profile(dcb.version, dcb.codeSize, dcb.goalPage, dcb.programCrc, id)};
        }
      } else if heard.nSummaries < K {
        sent := {Summary(dcb.version, dcb.highPage, 0, id)};
      }
      SetTimeout(Maintain);
    }

    method DoRx() returns (sent: set<Message>)
      modifies this`rx, this`entry
      ensures Contents() == DelugeNode.DoRx(old(Contents()))
      ensures sent == Ask(old(Contents()), id)
    {
      sent := {};
      if rx.nRequests < LAMBDA {
        sent := {Request(dcb.version, dcb.incomingPage, rx.packets, rx.updater, id)};
        rx := rx.(nRequests := rx.nRequests + 1);
        SetTimeout(Rx);
      } else {
        rx := rx.(nRequests := 0);
        rx := rx.(dtb := FARTHEST);
        StateTransition(Maintain);
      }
    }

    method StartTx()
      modifies this`tx
      ensures Contents() == DoTx(crc, old(Contents()))
    {
      var length := if tx.page + 1 == dcb.goalPage then dcb.codeSize % PAGE_SIZE else PAGE_SIZE;
      var sum := crc(Window(store.file, tx.page * PAGE_SIZE, length));
      tx := tx.(sending := Testing(dcb.version, tx.page, sum, tx.packets));
    }

    method Dispatch() returns (sent: set<Message>)
      requires Valid() && tx.sending.Idle?
      modifies this`mode, this`entry, this`heard, this`rx, this`tx
      ensures Valid() && Contents() == Dispatched(crc, old(Contents()))
      ensures sent == DispatchSends(old(Contents()), id)
    {
      sent := {};
      mode := entry.next;
      entry := Entry(Ignore, false);
      match mode
      case Maintain => DoMaintain1();
      case Maintain2 => sent := DoMaintain2();
      case Rx => sent := DoRx();
      case Tx => StartTx();
      case _ =>
    }

    /** The transmission loop tests its condition. */
    method Test()
      requires Valid() && tx.sending.Testing?
      modifies this`tx, this`entry
      ensures Valid() && Contents() == Tested(old(Contents()))
    {
      var s := tx.sending;
      if mode == Tx && !None(s.packets) {
        tx := tx.(sending := Scanning(s.version, s.page, s.crc, s.packets, 0));
      } else {
        tx := tx.(sending := Idle);
        StateTransition(Maintain);
      }
    }

    /** One turn of the scan of the page; stale is what the packet buffer held before. */
    method Scan(stale: seq<Byte>) returns (sent: set<Message>)
      requires Valid() && tx.sending.Scanning? && |stale| == PACKET_SIZE
      modifies this`tx
      ensures Valid() && Contents() == Scanned(old(Contents()))
      ensures sent == ScanSends(old(Contents()), id, stale)
    {
      sent := {};
      var s := tx.sending;
      if s.index == PACKETS {
        tx := tx.(sending := Testing(s.version, s.page, s.crc, tx.packets));
      } else {
        var packets := s.packets;
        if packets[s.index] {
          var payload := ReadOver(store.file, s.page * PAGE_SIZE + s.index * PACKET_SIZE, stale);
          if s.index == PACKETS - 1 {
            payload := payload[PACKET_SIZE - 2 := s.crc.low][PACKET_SIZE - 1 := s.crc.high];
          }
          sent := {Data(s.version, s.page, s.index, payload, id)};
          tx := tx.(packets := tx.packets[s.index := false]);
          packets := WordFrom(packets, tx.packets, s.index);
        }
        tx := tx.(sending := Scanning(s.version, s.page, s.crc, packets, s.index + 1));
      }
    }
  }
}

/** Packets on the serial line: the interrupt-driven transmitter and receiver, byte by byte. */
module Uart {
  type Byte = x: nat | x < 0x100

  const PREAMBLE: Byte := 0x53
  const PREAMBLE_SIZE := 2
  const COM_DATA_SIZE := 64

  type Buffer = s: seq<Byte> | |s| == COM_DATA_SIZE witness seq(COM_DATA_SIZE, _ => 0)

  datatype RxState = RxPreamble | RxSize | RxData

  /** The receiver's variables, and the packets handed on so far. */
  datatype Rx = Rx(state: RxState, index: Byte, size: Byte, data: Buffer, delivered: seq<seq<Byte>>)

  predicate Sendable(packet: seq<Byte>) {
    1 <= |packet| <= COM_DATA_SIZE
  }

  // One byte arrives. A fresh buffer is there whenever one is needed; its first contents do not matter, and
  // are taken to be those of the buffer before it.

  function OnPreamble(rx: Rx, byte: Byte): Rx {
    var index := if byte == PREAMBLE then (rx.index + 1) % 0x100 else 0;
    rx.(index := index, state := if index == PREAMBLE_SIZE then RxSize else RxPreamble)
  }

  /** A size that is too large sends the receiver back without clearing its count of preamble bytes. */
  function OnSize(rx: Rx, byte: Byte): Rx {
    if byte > COM_DATA_SIZE then rx.(size := byte, state := RxPreamble)
    else rx.(size := byte, state := RxData, index := 0)
  }

  /** A write behind the buffer is left out here; Behind says when there is one. */
  function OnData(rx: Rx, byte: Byte): Rx {
    var data := if rx.index < COM_DATA_SIZE then rx.data[rx.index := byte] else rx.data;
    var index := (rx.index + 1) % 0x100;
    if index == rx.size && index <= COM_DATA_SIZE
    then Rx(RxPreamble, 0, rx.size, data, rx.delivered + [data[..index]])
    else rx.(data := data, index := index)
  }

  function Received(rx: Rx, byte: Byte): Rx {
    match rx.state
    case RxPreamble => OnPreamble(rx, byte)
    case RxSize => OnSize(rx, byte)
    case RxData => OnData(rx, byte)
  }

  function After(rx: Rx, bytes: seq<Byte>): Rx
    decreases |bytes|
  {
    if bytes == [] then rx else After(Received(rx, bytes[0]), bytes[1..])
  }

  /** The next byte of a packet has a place in the buffer. */
  predicate InBuffer(rx: Rx) {
    rx.state.RxData? ==> rx.index < rx.size <= COM_DATA_SIZE
  }

  /** The receiver keeps to its buffer whatever arrives, exactly as long as no packet announces the size zero. */
  lemma StaysInBuffer(rx: Rx, byte: Byte)
    requires InBuffer(rx)
    ensures InBuffer(Received(rx, byte)) <==> !(rx.state.RxSize? && byte == 0)
  {
  }

  /** The next byte is written behind the buffer. */
  predicate Behind(rx: Rx) {
    rx.state.RxData? && rx.index >= COM_DATA_SIZE
  }

  predicate Synced(rx: Rx) {
    rx.state.RxPreamble? && rx.index == 0
  }

  lemma {:induction false} AfterSum(rx: Rx, a: seq<Byte>, b: seq<Byte>)
    ensures After(rx, a + b) == After(After(rx, a), b)
    decreases |a|
  {
    if a == [] {
      assert a + b == b;
    } else {
      assert (a + b)[0] == a[0] && (a + b)[1..] == a[1..] + b;
      AfterSum(Received(rx, a[0]), a[1..], b);
    }
  }

  // Frames.

  function Header(packet: seq<Byte>): seq<Byte>
    requires |packet| <= COM_DATA_SIZE
  {
    [PREAMBLE, PREAMBLE, |packet|]
  }

  function Frame(packet: seq<Byte>): seq<Byte>
    requires |packet| <= COM_DATA_SIZE
  {
    Header(packet) + packet
  }

  function Stream(packets: seq<seq<Byte>>): seq<Byte>
    requires forall p <- packets :: Sendable(p)
  {
    if packets == [] then [] else assert Sendable(packets[0]); Frame(packets[0]) + Stream(packets[1..])
  }

  lemma AfterThree(rx: Rx, a: Byte, b: Byte, c: Byte)
    ensures After(rx, [a, b, c]) == Received(Received(Received(rx, a), b), c)
  {
    var rx1 := Received(rx, a);
    var rx2 := Received(rx1, b);
    var rx3 := Received(rx2, c);
    assert [a, b, c][1..] == [b, c] && [b, c][1..] == [c] && [c][1..] == [];
    assert After(rx3, []) == rx3 && After(rx2, [c]) == rx3 && After(rx1, [b, c]) == rx3;
  }

  /** Three bytes of header: with the preamble count at zero they are taken for what they are, and at any other
      count they are missed. */
  lemma HeaderTaken(rx: Rx, packet: seq<Byte>)
    requires rx.state.RxPreamble? && Sendable(packet)
    ensures var after := After(rx, Header(packet));
      after.state.RxData? <==> rx.index == 0
    ensures rx.index == 0 ==> After(rx, Header(packet)) == rx.(state := RxData, index := 0, size := |packet|)
    ensures rx.index != 0 ==> Synced(After(rx, Header(packet))) && After(rx, Header(packet)).delivered == rx.delivered
  {
    AfterThree(rx, PREAMBLE, PREAMBLE, |packet|);
  }

  /** A size that is too large leaves the count of preamble bytes where it was, so that the header right behind it is
      missed; any other byte in between puts the receiver back in step. */
  lemma OversizeMissesNext(rx: Rx, size: Byte, packet: seq<Byte>, between: Byte)
    requires Synced(rx) && size > COM_DATA_SIZE && Sendable(packet) && between != PREAMBLE
    ensures var after := After(rx, [PREAMBLE, PREAMBLE, size]);
      && after.state.RxPreamble? && after.index == PREAMBLE_SIZE && after.delivered == rx.delivered
      && !After(after, Header(packet)).state.RxData? && After(after, Header(packet)).delivered == rx.delivered
      && Synced(Received(after, between)) && After(Received(after, between), Header(packet)).state.RxData?
  {
    AfterThree(rx, PREAMBLE, PREAMBLE, size);
    var after := After(rx, [PREAMBLE, PREAMBLE, size]);
    HeaderTaken(after, packet);
    HeaderTaken(Received(after, between), packet);
  }

  /** The bytes of a packet, from the i-th on. */
  lemma {:induction false} DataTaken(rx: Rx, packet: seq<Byte>, i: nat)
    requires i < |packet| <= COM_DATA_SIZE && rx.state.RxData? && rx.index == i && rx.size == |packet|
    requires rx.data[..i] == packet[..i]
    ensures var after := After(rx, packet[i..]);
      Synced(after) && after.delivered == rx.delivered + [packet]
    decreases |packet| - i
  {
    var next := Received(rx, packet[i]);
    assert packet[i..][1..] == packet[i + 1..];
    var data := rx.data[i := packet[i]];
    assert data[..i + 1] == data[..i] + [packet[i]] && data[..i] == rx.data[..i];
    assert packet[..i + 1] == packet[..i] + [packet[i]];
    if i + 1 < |packet| {
      DataTaken(next, packet, i + 1);
    } else {
      assert packet[..i + 1] == packet && packet[i + 1..] == [];
    }
  }

  lemma FrameDelivered(rx: Rx, packet: seq<Byte>)
    requires Synced(rx) && Sendable(packet)
    ensures Synced(After(rx, Frame(packet))) && After(rx, Frame(packet)).delivered == rx.delivered + [packet]
  {
    AfterSum(rx, Header(packet), packet);
    HeaderTaken(rx, packet);
    var inside := After(rx, Header(packet));
    assert packet[0..] == packet;
    DataTaken(inside, packet, 0);
  }

  /** A receiver in step delivers exactly the packets that were sent, in their order, whatever bytes they hold,
      and ends in step. */
  lemma {:induction false} StreamDelivered(rx: Rx, packets: seq<seq<Byte>>)
    requires Synced(rx) && forall p <- packets :: Sendable(p)
    ensures Synced(After(rx, Stream(packets))) && After(rx, Stream(packets)).delivered == rx.delivered + packets
    decreases |packets|
  {
    if packets == [] {
      assert rx.delivered + packets == rx.delivered;
    } else {
      assert Sendable(packets[0]);
      var next := After(rx, Frame(packets[0]));
      FrameDelivered(rx, packets[0]);
      StreamDelivered(next, packets[1..]);
      AfterSum(rx, Frame(packets[0]), Stream(packets[1..]));
      assert rx.delivered + packets == rx.delivered + [packets[0]] + packets[1..];
    }
  }

  /** One stray preamble byte before a frame is enough to lose its packet. */
  lemma StrayPreamble(rx: Rx, packet: seq<Byte>)
    requires Synced(rx) && Sendable(packet)
    ensures After(rx, [PREAMBLE] + Frame(packet)) == After(After(rx, [PREAMBLE] + Header(packet)), packet)
    ensures Synced(After(rx, [PREAMBLE] + Header(packet)))
    ensures After(rx, [PREAMBLE] + Header(packet)).delivered == rx.delivered
  {
    var rx1 := Received(rx, PREAMBLE);
    assert ([PREAMBLE] + Header(packet))[1..] == Header(packet);
    assert After(rx, [PREAMBLE] + Header(packet)) == After(rx1, Header(packet));
    HeaderTaken(rx1, packet);
    assert [PREAMBLE] + Frame(packet) == ([PREAMBLE] + Header(packet)) + packet;
    AfterSum(rx, [PREAMBLE] + Header(packet), packet);
  }

  // Size zero.

  /** The k-th byte announces a packet of size zero. */
  predicate ZeroAt(rx: Rx, line: seq<Byte>, k: nat) {
    k < |line| && line[k] == 0 && After(rx, line[..k]).state.RxSize?
  }

  /** After the size zero the bytes are taken one after the other, and counted. */
  lemma {:induction false} ZeroRuns(rx: Rx, bytes: seq<Byte>)
    requires rx.state.RxData? && rx.size == 0 && rx.index + |bytes| < 0x100
    ensures var after := After(rx, bytes);
      after.state.RxData? && after.size == 0 && after.index == rx.index + |bytes| && after.delivered == rx.delivered
    decreases |bytes|
  {
    if bytes != [] {
      ZeroRuns(Received(rx, bytes[0]), bytes[1..]);
    }
  }

  lemma AfterNext(rx: Rx, line: seq<Byte>)
    requires line != []
    ensures After(rx, line) == Received(After(rx, line[..|line| - 1]), line[|line| - 1])
  {
    var front, last := line[..|line| - 1], line[|line| - 1];
    assert line == front + [last];
    AfterSum(rx, front, [last]);
    assert After(Received(After(rx, front), last), []) == After(After(rx, front), [last]);
  }

  /** From a header that announces the size zero, 255 bytes are taken. */
  lemma AfterZero(rx: Rx, line: seq<Byte>, k: nat)
    requires ZeroAt(rx, line, k) && |line| - k <= 0x100
    ensures var after := After(rx, line); after.state.RxData? && after.size == 0 && after.index == |line| - k - 1
  {
    var head, rest := line[..k + 1], line[k + 1..];
    assert line == head + rest && head[..k] == line[..k];
    AfterSum(rx, head, rest);
    AfterNext(rx, head);
    ZeroRuns(After(rx, head), rest);
  }

  /** The receiver is out of its buffer's bounds exactly if one of the last 256 bytes announced the size zero. */
  lemma {:induction false} OutExactly(rx: Rx, line: seq<Byte>)
    requires InBuffer(rx)
    ensures !InBuffer(After(rx, line)) <==> exists k: nat :: ZeroAt(rx, line, k) && |line| - k <= 0x100
    decreases |line|
  {
    if exists k: nat :: ZeroAt(rx, line, k) && |line| - k <= 0x100 {
      var k: nat :| ZeroAt(rx, line, k) && |line| - k <= 0x100;
      AfterZero(rx, line, k);
    } else if line != [] {
      var front := line[..|line| - 1];
      OutExactly(rx, front);
      AfterNext(rx, line);
      StillIn(rx, line);
    }
  }

  /** One byte further. */
  lemma StillIn(rx: Rx, line: seq<Byte>)
    requires InBuffer(rx) && line != [] && !exists k: nat :: ZeroAt(rx, line, k) && |line| - k <= 0x100
    requires var front := line[..|line| - 1];
      !InBuffer(After(rx, front)) ==> exists k: nat :: ZeroAt(rx, front, k) && |front| - k <= 0x100
    ensures InBuffer(After(rx, line))
  {
    var front := line[..|line| - 1];
    AfterNext(rx, line);
    if InBuffer(After(rx, front)) {
      StaysInBuffer(After(rx, front), line[|line| - 1]);
      assert front == line[..|line| - 1];
      assert !ZeroAt(rx, line, |line| - 1);
    } else {
      var k: nat :| ZeroAt(rx, front, k) && |front| - k <= 0x100;
      assert front[..k] == line[..k] && ZeroAt(rx, line, k);
      AfterZero(rx, front, k);
    }
  }

  /** The next byte goes behind the buffer exactly if a packet of size zero was announced and 64 to 255 bytes have come
      since; whatever is written there is not the packet's. */
  lemma BehindExactly(rx: Rx, line: seq<Byte>)
    requires InBuffer(rx)
    ensures Behind(After(rx, line)) <==> exists k: nat :: ZeroAt(rx, line, k) && COM_DATA_SIZE < |line| - k <= 0x100
  {
    OutExactly(rx, line);
    if exists k: nat :: ZeroAt(rx, line, k) && |line| - k <= 0x100 {
      var k: nat :| ZeroAt(rx, line, k) && |line| - k <= 0x100;
      AfterZero(rx, line, k);
      forall j: nat | ZeroAt(rx, line, j) && |line| - j <= 0x100
        ensures j == k
      {
        AfterZero(rx, line, j);
      }
    }
  }

  /** A receiver in step, a header with the size zero, and any bytes: up to 64 stay in the buffer, up to 255 are taken,
      and with the 256th the count is back at zero and an empty packet is delivered, unless what was written behind the
      buffer was the size. */
  lemma ZeroSizeTaken(rx: Rx, bytes: seq<Byte>)
    requires Synced(rx) && |bytes| <= 0x100
    ensures var after := After(rx, [PREAMBLE, PREAMBLE, 0] + bytes);
      && (Behind(after) <==> COM_DATA_SIZE <= |bytes| < 0x100)
      && (|bytes| < 0x100 ==> after.state.RxData? && after.index == |bytes| && after.delivered == rx.delivered)
      && (|bytes| == 0x100 ==> Synced(after) && after.delivered == rx.delivered + [[]])
  {
    var header: seq<Byte> := [PREAMBLE, PREAMBLE, 0];
    AfterThree(rx, PREAMBLE, PREAMBLE, 0);
    var started := After(rx, header);
    assert started == rx.(state := RxData, index := 0, size := 0);
    AfterSum(rx, header, bytes);
    if |bytes| < 0x100 {
      ZeroRuns(started, bytes);
    } else {
      ZeroRuns(started, bytes[..0xff]);
      AfterNext(started, bytes);
    }
  }

  // The two machines as the interrupts drive them.

  lemma Moved(line: seq<Byte>, byte: Byte, rest: seq<Byte>, next: seq<Byte>)
    requires rest == [byte] + next
    ensures line + rest == (line + [byte]) + next
  {
  }

  datatype TxState = TxPreamble | TxSize | TxData

  class Transmitter {
    var state: TxState
    var index: nat
    var size: Byte
    var data: seq<Byte>

    constructor ()
      ensures state == TxPreamble
    {
      state := TxPreamble;
      index := 0;
      size := 0;
      data := [];
    }

    /** What is still to be put on the line. */
    ghost function Rest(): seq<Byte>
      requires size == |data| <= COM_DATA_SIZE && index <= |data| + PREAMBLE_SIZE
      reads this
    {
      match state
      case TxPreamble =>
        if index >= PREAMBLE_SIZE then [] else seq(PREAMBLE_SIZE - index, _ => PREAMBLE) + [|data|] + data
      case TxSize => [|data|] + data
      case TxData => if index <= |data| then data[index..] else []
    }

    predicate InFrame()
      reads this
    {
      match state
      case TxPreamble => index < PREAMBLE_SIZE
      case TxSize => index == PREAMBLE_SIZE
      case TxData => index <= size
    }

    /** The register is free: the next byte goes out, or the sender is told that it is done. */
    method Interrupt() returns (done: bool, byte: Byte)
      requires size == |data| <= COM_DATA_SIZE
      requires InFrame()
      modifies this`state, this`index
      ensures done <==> old(Rest()) == []
      ensures done ==> state == TxPreamble
      ensures !done ==>
        && InFrame()
        && old(Rest()) == [byte] + Rest()
    {
      done, byte := false, 0;
      match state
      case TxPreamble =>
        byte := PREAMBLE;
        index := index + 1;
        if index == PREAMBLE_SIZE {
          state := TxSize;
        }
      case TxSize =>
        byte := size;
        state := TxData;
        index := 0;
      case TxData =>
        if index == size {
          index := 0;
          state := TxPreamble;
          done := true;
        } else {
          byte := data[index];
          index := index + 1;
        }
    }

    /** The first preamble byte is sent at once, the rest as the line asks for it. */
    method Send(packet: seq<Byte>) returns (line: seq<Byte>)
      requires |packet| <= COM_DATA_SIZE
      modifies this
      ensures line == Frame(packet) && state == TxPreamble
    {
      data, size := packet, |packet|;
      index := 1;
      state := TxPreamble;
      line := [PREAMBLE];
      assert seq(1, _ => PREAMBLE) == [PREAMBLE];
      var done := false;
      while !done
        invariant data == packet && size == |packet|
        invariant !done ==> InFrame()
        invariant if done then line == Frame(packet) && state == TxPreamble else line + Rest() == Frame(packet)
        decreases if done then 0 else 1 + |Rest()|
      {
        ghost var rest := Rest();
        var byte;
        done, byte := Interrupt();
        if !done {
          Moved(line, byte, rest, Rest());
          line := line + [byte];
        }
      }
    }
  }

  class Receiver {
    var state: RxState
    var index: Byte
    var size: Byte
    var data: Buffer
    var delivered: seq<seq<Byte>>

    ghost function Contents(): Rx
      reads this
    {
      Rx(state, index, size, data, delivered)
    }

    /** The receiver is switched to listening. */
    constructor (data: Buffer)
      ensures Synced(Contents()) && delivered == []
    {
      state := RxPreamble;
      index := 0;
      size := 0;
      this.data := data;
      delivered := [];
    }

    method Interrupt(byte: Byte)
      requires !Behind(Contents())
      modifies this
      ensures Contents() == Received(old(Contents()), byte)
    {
      match state
      case RxPreamble =>
        if byte == PREAMBLE {
          index := (index + 1) % 0x100;
        } else {
          index := 0;
        }
        if index == PREAMBLE_SIZE {
          state := RxSize;
        }
      case RxSize =>
        size := byte;
        if size > COM_DATA_SIZE {
          state := RxPreamble;
        } else {
          state := RxData;
          index := 0;
        }
      case RxData =>
        data := data[index := byte];
        index := index + 1;
        if index == size {
          delivered := delivered + [data[..size]];
          state := RxPreamble;
          index := 0;
        }
    }
  }
}

/** The queue and the pool as the threads update them. */
module CtpQueues {
  import opened Ctp

  class PacketQueues {
    var sendQueue: seq<Slot>
    var queueHead: nat
    var queueSize: nat
    var packetPool: seq<Packet>
    var poolHead: nat
    var poolSize: nat

    ghost function Contents(): Queues
      reads this
    {
      Queues(sendQueue, queueHead, queueSize, packetPool, poolHead, poolSize)
    }

    constructor ()
      ensures Contents() == Initial()
    {
      queueHead := 0;
      queueSize := 0;
      sendQueue := seq(QUEUE_SIZE, _ => Empty);
      packetPool := seq(FORWARDING_SIZE, i requires 0 <= i => Forward(i));
      poolHead := 0;
      poolSize := FORWARDING_SIZE;
    }

    /** A packet for which there is no room is dropped; Ctp.EnqueueKeeps says that there always is. */
    method EnqueuePacket(p: Packet)
      requires Shaped(Contents())
      modifies this`sendQueue, this`queueSize
      ensures Contents() == Enqueued(old(Contents()), p)
    {
      if queueSize < QUEUE_SIZE {
        sendQueue := sendQueue[(queueHead + queueSize) % QUEUE_SIZE := Holds(p)];
        queueSize := queueSize + 1;
      }
    }

    method DequeuePacket() returns (r: Slot)
      requires Shaped(Contents()) && Filled(Contents())
      modifies this`sendQueue, this`queueHead, this`queueSize
      ensures if old(queueSize) == 0 then r == Empty && Contents() == old(Contents())
        else r == Holds(old(Queued(Contents()))[0]) && Contents() == Dequeued(old(Contents()))
    {
      if queueSize == 0 {
        return Empty;
      }
      DequeueRemoves(Contents());
      r := sendQueue[queueHead];
      sendQueue := sendQueue[queueHead := Empty];
      queueHead := (queueHead + 1) % QUEUE_SIZE;
      queueSize := queueSize - 1;
    }

    method AllocatePacket() returns (r: Slot)
      requires Shaped(Contents())
      modifies this`poolHead, this`poolSize
      ensures if old(poolSize) == 0 then r == Empty && Contents() == old(Contents())
        else r == Holds(old(Pooled(Contents()))[0]) && Contents() == Allocated(old(Contents()))
    {
      if poolSize == 0 {
        return Empty;
      }
      r := Holds(packetPool[poolHead]);
      poolHead := poolHead + 1;
      poolSize := poolSize - 1;
    }

    method FreePacket(p: Packet)
      requires Shaped(Contents())
      modifies this`poolHead, this`poolSize, this`packetPool
      ensures Contents() == Freed(old(Contents()), p)
    {
      if poolHead == 0 {
        return;
      }
      poolHead := poolHead - 1;
      packetPool := packetPool[poolHead := p];
      poolSize := poolSize + 1;
    }

    /** The beacon is queued unless the search through all slots finds it. */
    method EnqueueBeacon()
      requires Shaped(Contents())
      modifies this`sendQueue, this`queueSize
      ensures Contents() == BeaconEnqueued(old(Contents()))
    {
      var i := 0;
      while i < QUEUE_SIZE
        invariant 0 <= i <= QUEUE_SIZE
        invariant forall k :: 0 <= k < i ==> sendQueue[k] != Holds(Beacon)
      {
        if sendQueue[i] == Holds(Beacon) {
          break;
        }
        i := i + 1;
      }
      if i >= QUEUE_SIZE {
        EnqueuePacket(Beacon);
      }
    }
  }
}

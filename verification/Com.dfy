/** The pool of communication buffers: the free list, one queue per interface, and what drivers and applications
    hold. */
module Com {
  const MAX_IFS := 7
  const NUM_BUFS := 5

  class ComBuf {
    var next: ComBuf?

    constructor ()
    {
      next := null;
    }
  }

  datatype Where = Free | Full(iface: nat) | Out

  type Thread = nat

  datatype Waiter = Nobody | Waiting(thread: Thread)

  ghost function First(list: seq<ComBuf>): ComBuf? {
    if list == [] then null else list[0]
  }

  ghost function Behind(list: seq<ComBuf>, i: nat): ComBuf? {
    if i + 1 < |list| then list[i + 1] else null
  }

  ghost predicate Distinct(list: seq<ComBuf>) {
    forall i, j :: 0 <= i < j < |list| ==> list[i] != list[j]
  }

  /** The pointers lead from the head through the list and end with it. */
  ghost predicate Linked(list: seq<ComBuf>, head: ComBuf?)
    reads list
  {
    && head == First(list) && Distinct(list)
    && forall i :: 0 <= i < |list| ==> list[i].next == Behind(list, i)
  }

  /** The lists hold exactly the buffers whose place is theirs. */
  ghost predicate Placed(all: set<ComBuf>, free: seq<ComBuf>, full: seq<seq<ComBuf>>, places: map<ComBuf, Where>) {
    && |full| == MAX_IFS && all == places.Keys
    && (forall b <- free :: b in all && places[b] == Free)
    && (forall b <- all :: places[b] == Free ==> b in free)
    && (forall i :: 0 <= i < MAX_IFS ==> forall b <- full[i] :: b in all && places[b] == Full(i))
    && (forall b <- all :: places[b].Full? && places[b].iface < MAX_IFS ==> b in full[places[b].iface])
    && (forall b <- all :: places[b].Full? ==> places[b].iface < MAX_IFS)
  }

  lemma TakenFromFree(all: set<ComBuf>, free: seq<ComBuf>, full: seq<seq<ComBuf>>, places: map<ComBuf, Where>)
    requires Placed(all, free, full, places) && free != [] && Distinct(free)
    ensures free[0] in all && Placed(all, free[1..], full, places[free[0] := Out]) && Distinct(free[1..])
  {
    forall b | b in free && b != free[0]
      ensures b in free[1..]
    {
      var i :| 0 <= i < |free| && free[i] == b;
      assert free[1..][i - 1] == b;
    }
  }

  lemma PutOnFree(all: set<ComBuf>, free: seq<ComBuf>, full: seq<seq<ComBuf>>, places: map<ComBuf, Where>, b: ComBuf)
    requires Placed(all, free, full, places) && Distinct(free) && b in all && places[b] == Out
    ensures Placed(all, [b] + free, full, places[b := Free]) && Distinct([b] + free)
  {
  }

  lemma NewOnFree(all: set<ComBuf>, free: seq<ComBuf>, full: seq<seq<ComBuf>>, places: map<ComBuf, Where>, b: ComBuf)
    requires Placed(all, free, full, places) && Distinct(free) && b !in all
    ensures Placed(all + {b}, [b] + free, full, places[b := Free]) && Distinct([b] + free)
  {
  }

  lemma TakenFromFull(all: set<ComBuf>, free: seq<ComBuf>, full: seq<seq<ComBuf>>, places: map<ComBuf, Where>, i: nat)
    requires Placed(all, free, full, places) && i < MAX_IFS && full[i] != [] && Distinct(full[i])
    ensures full[i][0] in all && Placed(all, free, full[i := full[i][1..]], places[full[i][0] := Out])
    ensures Distinct(full[i][1..])
  {
    forall b | b in full[i] && b != full[i][0]
      ensures b in full[i][1..]
    {
      var k :| 0 <= k < |full[i]| && full[i][k] == b;
      assert full[i][1..][k - 1] == b;
    }
  }

  lemma PutOnFull(all: set<ComBuf>, free: seq<ComBuf>, full: seq<seq<ComBuf>>, places: map<ComBuf, Where>, i: nat,
                  b: ComBuf)
    requires Placed(all, free, full, places) && i < MAX_IFS && Distinct(full[i]) && b in all && places[b] == Out
    ensures Placed(all, free, full[i := full[i] + [b]], places[b := Full(i)]) && Distinct(full[i] + [b])
  {
  }

  // Who waits, and who was woken.

  /** Whoever waits finds nothing, and there is a buffer for everyone who was woken. */
  ghost predicate Serves(full: seq<seq<ComBuf>>, threads: seq<Waiter>, woken: multiset<nat>)
    requires |full| == MAX_IFS && |threads| == MAX_IFS
  {
    && (forall i :: 0 <= i < MAX_IFS && threads[i].Waiting? ==> full[i] == [])
    && (forall i :: 0 <= i < MAX_IFS ==> woken[i] <= |full[i]|)
  }

  lemma ArrivalServes(full: seq<seq<ComBuf>>, threads: seq<Waiter>, woken: multiset<nat>, i: nat, buf: ComBuf)
    requires |full| == MAX_IFS && |threads| == MAX_IFS && i < MAX_IFS && Serves(full, threads, woken)
    ensures Serves(full[i := full[i] + [buf]], threads[i := Nobody],
                   if threads[i].Waiting? then woken + multiset{i} else woken)
  {
  }

  /** Taking a buffer robs a receiver that was woken exactly if there are as many of them as buffers; a woken receiver
      that takes its own robs nobody. */
  lemma TakingServes(full: seq<seq<ComBuf>>, threads: seq<Waiter>, woken: multiset<nat>, i: nat)
    requires |full| == MAX_IFS && |threads| == MAX_IFS && i < MAX_IFS && Serves(full, threads, woken) && full[i] != []
    ensures Serves(full[i := full[i][1..]], threads[i := Nobody], woken) <==> woken[i] < |full[i]|
    ensures i in woken ==> Serves(full[i := full[i][1..]], threads[i := Nobody], woken - multiset{i})
  {
    var after := full[i := full[i][1..]];
    assert |after[i]| == |full[i]| - 1;
  }

  lemma SuspensionServes(full: seq<seq<ComBuf>>, threads: seq<Waiter>, woken: multiset<nat>, i: nat, me: Thread)
    requires |full| == MAX_IFS && |threads| == MAX_IFS && i < MAX_IFS && Serves(full, threads, woken) && full[i] == []
    ensures Serves(full, threads[i := Waiting(me)], woken)
  {
  }

  class Pool {
    var freeBufs: ComBuf?
    var ifBufs: seq<ComBuf?>
    var ifThreads: seq<Waiter>

    // The lists, where every buffer is, and how many receivers of an interface have been woken but have not yet run.
    ghost var all: set<ComBuf>
    ghost var free: seq<ComBuf>
    ghost var full: seq<seq<ComBuf>>
    ghost var places: map<ComBuf, Where>
    ghost var woken: multiset<nat>

    /** Every buffer is on the free list, on the queue of one interface, or out, and the lists are what the pointers
        say. */
    ghost predicate Kept()
      reads this`freeBufs, this`ifBufs, this`all, this`free, this`full, this`places, all
    {
      && Placed(all, free, full, places) && |ifBufs| == MAX_IFS
      && Linked(free, freeBufs)
      && (forall i :: 0 <= i < MAX_IFS ==> Linked(full[i], ifBufs[i]))
    }

    ghost predicate Valid()
      reads this, all
    {
      Kept() && |ifThreads| == MAX_IFS
    }

    /** Whoever waits finds nothing, and there is a buffer for everyone who was woken. */
    ghost predicate Served()
      requires |full| == MAX_IFS && |ifThreads| == MAX_IFS
      reads this`full, this`ifThreads, this`woken
    {
      Serves(full, ifThreads, woken)
    }

    method GetFreeBuf() returns (buf: ComBuf?)
      requires Valid()
      modifies this`freeBufs, this`free, this`places
      ensures Valid()
      ensures if old(free) == [] then buf == null && free == [] && places == old(places)
        else buf == old(free)[0] && free == old(free)[1..] && places == old(places)[buf := Out]
    {
      if freeBufs == null {
        return null;
      }
      TakenFromFree(all, free, full, places);
      buf := freeBufs;
      freeBufs := buf.next;
      places := places[buf := Out];
      free := free[1..];
    }

    method FreeBuf(buf: ComBuf?)
      requires Valid()
      requires buf != null ==> buf in all && places[buf] == Out
      modifies this`freeBufs, this`free, this`places, all
      ensures Valid()
      ensures if buf == null then free == old(free) && places == old(places)
        else free == [buf] + old(free) && places == old(places)[buf := Free]
    {
      if buf == null {
        return;
      }
      PutOnFree(all, free, full, places, buf);
      Prepend(buf);
      freeBufs := buf;
      free := [buf] + free;
      places := places[buf := Free];
    }

    /** A buffer that is out is put before the free ones; no other list changes. */
    method Prepend(buf: ComBuf)
      requires Valid() && buf in all && places[buf] == Out
      modifies buf
      ensures Linked([buf] + free, buf)
      ensures forall i :: 0 <= i < MAX_IFS ==> Linked(full[i], ifBufs[i])
    {
      assert buf !in free && forall i :: 0 <= i < MAX_IFS ==> buf !in full[i];
      buf.next := freeBufs;
    }

    /** The buffer goes to the end of the interface's queue. */
    method SaveFullBuf(iface: nat, buf: ComBuf)
      requires Valid() && iface < MAX_IFS && buf in all && places[buf] == Out
      modifies this`ifBufs, this`full, this`places, all
      ensures Valid() && full == old(full)[iface := old(full)[iface] + [buf]]
      ensures places == old(places)[buf := Full(iface)]
    {
      PutOnFull(all, free, full, places, iface, buf);
      AppendTo(iface, buf);
      full := full[iface := full[iface] + [buf]];
      places := places[buf := Full(iface)];
    }

    /** The pointers of one queue change, and of no other list. */
    method AppendTo(iface: nat, buf: ComBuf)
      requires Valid() && iface < MAX_IFS && buf in all && places[buf] == Out
      modifies this`ifBufs, all
      ensures |ifBufs| == MAX_IFS && Linked(free, freeBufs)
      ensures forall j :: 0 <= j < MAX_IFS ==> Linked(full[iface := full[iface] + [buf]][j], ifBufs[j])
    {
      ghost var list := full[iface];
      assert list != [] ==> list[|list| - 1] in list;
      var first := Append(ifBufs[iface], buf, list);
      ifBufs := ifBufs[iface := first];
      assert Linked(free, freeBufs);
      forall j | 0 <= j < MAX_IFS && j != iface
        ensures Linked(full[j], ifBufs[j])
      {
        assert buf !in full[j] && (list != [] ==> list[|list| - 1] !in full[j]);
      }
    }

    method Append(head: ComBuf?, buf: ComBuf, ghost list: seq<ComBuf>) returns (first: ComBuf)
      requires Linked(list, head) && buf !in list
      modifies buf, if list == [] then {} else {list[|list| - 1]}
      ensures Linked(list + [buf], first)
    {
      buf.next := null;
      if head == null {
        return buf;
      }
      var last := LastOf(head, list);
      last.next := buf;
      first := head;
    }

    method LastOf(head: ComBuf, ghost list: seq<ComBuf>) returns (last: ComBuf)
      requires list != [] && head == list[0]
      requires forall k :: 0 <= k < |list| ==> list[k].next == Behind(list, k)
      ensures last == list[|list| - 1]
    {
      last := head;
      ghost var i := 0;
      while last.next != null
        invariant 0 <= i < |list| && last == list[i]
        decreases |list| - i
      {
        assert list[i].next == Behind(list, i);
        last := last.next;
        i := i + 1;
      }
    }

    /** A full buffer is queued, and the thread that waits for one is woken. */
    method Arrive(iface: nat, buf: ComBuf) returns (resumed: Waiter)
      requires Valid() && iface < MAX_IFS && buf in all && places[buf] == Out
      modifies this`ifBufs, this`full, this`places, this`ifThreads, this`woken, all
      ensures Valid() && (old(Served()) ==> Served()) && resumed == old(ifThreads[iface])
      ensures full == old(full)[iface := old(full)[iface] + [buf]] && places == old(places)[buf := Full(iface)]
      ensures ifThreads == old(ifThreads)[iface := Nobody]
      ensures woken == if resumed.Waiting? then old(woken) + multiset{iface} else old(woken)
    {
      if Served() {
        ArrivalServes(full, ifThreads, woken, iface, buf);
      }
      SaveFullBuf(iface, buf);
      assert ifThreads == old(ifThreads) && woken == old(woken);
      resumed := Wake(iface);
      assert Kept();
    }

    method Wake(iface: nat) returns (resumed: Waiter)
      requires iface < |ifThreads|
      modifies this`ifThreads, this`woken
      ensures resumed == old(ifThreads[iface]) && ifThreads == old(ifThreads)[iface := Nobody]
      ensures woken == if resumed.Waiting? then old(woken) + multiset{iface} else old(woken)
    {
      resumed := Nobody;
      if ifThreads[iface] != Nobody {
        resumed := ifThreads[iface];
        ifThreads := ifThreads[iface := Nobody];
        woken := woken + multiset{iface};
      }
    }

    /** A driver hands in a full buffer, or none, and gets a free one if there is any. */
    method SwapBufs(iface: nat, buf: ComBuf?) returns (ret: ComBuf?, resumed: Waiter)
      requires Valid() && iface < MAX_IFS
      requires buf != null ==> buf in all && places[buf] == Out
      modifies this, all
      ensures Valid() && (old(Served()) ==> Served()) && all == old(all)
      ensures full == if buf == null then old(full) else old(full)[iface := old(full)[iface] + [buf]]
      ensures resumed == if buf == null then Nobody else old(ifThreads[iface])
      ensures ifThreads == if buf == null then old(ifThreads) else old(ifThreads)[iface := Nobody]
      ensures woken == if resumed.Waiting? then old(woken) + multiset{iface} else old(woken)
      ensures var filled := if buf == null then old(places) else old(places)[buf := Full(iface)];
        if old(free) == [] then ret == null && free == [] && places == filled
        else ret == old(free)[0] && free == old(free)[1..] && places == filled[ret := Out]
    {
      resumed := Nobody;
      if buf != null {
        resumed := Arrive(iface, buf);
      }
      ret := GetFreeBuf();
    }

    /** The first buffer of a queue goes to the application. */
    method Take(iface: nat) returns (buf: ComBuf)
      requires Valid() && iface < MAX_IFS && full[iface] != []
      modifies this`ifBufs, this`full, this`places
      ensures Valid() && buf == old(full[iface])[0] && buf in all
      ensures full == old(full)[iface := old(full[iface])[1..]] && places == old(places)[buf := Out]
    {
      TakenFromFull(all, free, full, places, iface);
      buf := ifBufs[iface];
      ifBufs := ifBufs[iface := buf.next];
      ghost var list := full[iface];
      places := places[buf := Out];
      full := full[iface := list[1..]];
    }

    /** The receiver takes the buffer and itself out of the table. */
    method TakeOwn(iface: nat) returns (buf: ComBuf)
      requires Valid() && iface < MAX_IFS && full[iface] != []
      modifies this`ifBufs, this`full, this`places, this`ifThreads
      ensures Valid() && buf == old(full[iface])[0] && buf in all
      ensures full == old(full)[iface := old(full[iface])[1..]] && places == old(places)[buf := Out]
      ensures ifThreads == old(ifThreads)[iface := Nobody]
    {
      buf := Take(iface);
      ifThreads := ifThreads[iface := Nobody];
    }

    /** Taking a buffer leaves a receiver that has been woken with nothing exactly if there were as many of them as
        buffers. */
    method RecvNoblock(iface: nat) returns (buf: ComBuf?)
      requires Valid() && iface < MAX_IFS
      modifies this`ifBufs, this`full, this`places
      ensures Valid()
      ensures buf == null <==> old(ifThreads[iface]).Waiting? || old(full[iface]) == []
      ensures buf != null ==> buf == old(full[iface])[0] && places == old(places)[buf := Out]
      ensures full == if buf == null then old(full) else old(full)[iface := old(full[iface])[1..]]
      ensures old(Served()) ==> (Served() <==> buf == null || woken[iface] < |old(full[iface])|)
    {
      if ifThreads[iface] != Nobody {
        return null;
      }
      if ifBufs[iface] == null {
        return null;
      }
      if Served() {
        TakingServes(full, ifThreads, woken, iface);
      }
      assert ifThreads[iface := Nobody] == ifThreads;
      buf := Take(iface);
    }

    /** Receiving, up to the point where the thread has a buffer, is refused or is suspended. It, too, can take the
        buffer of a receiver that has been woken. */
    method RecvBegin(iface: nat, me: Thread) returns (buf: ComBuf?, suspended: bool)
      requires Valid() && iface < MAX_IFS
      modifies this`ifBufs, this`full, this`places, this`ifThreads
      ensures Valid()
      ensures suspended <==> !old(ifThreads[iface]).Waiting? && old(full[iface]) == []
      ensures ifThreads == if suspended then old(ifThreads)[iface := Waiting(me)] else old(ifThreads)
      ensures buf == null <==> old(ifThreads[iface]).Waiting? || old(full[iface]) == []
      ensures buf != null ==> buf == old(full[iface])[0] && places == old(places)[buf := Out]
      ensures full == if buf == null then old(full) else old(full)[iface := old(full[iface])[1..]]
      ensures old(Served()) ==> (Served() <==> buf == null || woken[iface] < |old(full[iface])|)
    {
      if ifThreads[iface] != Nobody {
        return null, false;
      }
      if ifBufs[iface] == null {
        if Served() {
          SuspensionServes(full, ifThreads, woken, iface, me);
        }
        ifThreads := ifThreads[iface := Waiting(me)];
        return null, true;
      }
      if Served() {
        TakingServes(full, ifThreads, woken, iface);
      }
      assert ifThreads[iface := Nobody] == ifThreads;
      buf := TakeOwn(iface);
      suspended := false;
    }

    /** A woken receiver finds a buffer, as long as nobody was robbed. Null stands for a receiver that finds the queue
        empty, and follows the null pointer. */
    method RecvResume(iface: nat) returns (buf: ComBuf?)
      requires Valid() && iface < MAX_IFS && iface in woken
      modifies this`ifBufs, this`full, this`places, this`ifThreads, this`woken
      ensures Valid() && woken == old(woken) - multiset{iface}
      ensures old(Served()) ==> Served() && buf != null
      ensures ifThreads == if buf == null then old(ifThreads) else old(ifThreads)[iface := Nobody]
      ensures buf == null <==> old(full[iface]) == []
      ensures buf != null ==> buf == old(full[iface])[0] && places == old(places)[buf := Out]
      ensures full == if buf == null then old(full) else old(full)[iface := old(full[iface])[1..]]
    {
      if Served() && full[iface] != [] {
        TakingServes(full, ifThreads, woken, iface);
      }
      woken := woken - multiset{iface};
      if ifBufs[iface] == null {
        return null;
      }
      buf := TakeOwn(iface);
    }

    /** All buffers start on the free list. */
    constructor ()
      ensures Valid() && Served() && fresh(all)
      ensures |free| == NUM_BUFS && full == seq(MAX_IFS, _ => []) && woken == multiset{}
      ensures ifThreads == seq(MAX_IFS, _ => Nobody)
    {
      freeBufs := null;
      ifBufs := seq(MAX_IFS, _ => null);
      ifThreads := seq(MAX_IFS, _ => Nobody);
      all, free, full, places, woken := {}, [], seq(MAX_IFS, _ => []), map[], multiset{};
      new;
      for i := 0 to NUM_BUFS
        invariant Valid() && Served() && fresh(all) && |free| == i
        invariant full == seq(MAX_IFS, _ => []) && woken == multiset{} && ifThreads == seq(MAX_IFS, _ => Nobody)
      {
        AddBuf();
      }
    }

    method AddBuf()
      requires Valid() && Served()
      modifies this`freeBufs, this`free, this`places, this`all
      ensures Valid() && Served() && |free| == old(|free|) + 1 && fresh(all - old(all)) && old(all) <= all
    {
      var buf := new ComBuf();
      NewOnFree(all, free, full, places, buf);
      buf.next := freeBufs;
      freeBufs := buf;
      all := all + {buf};
      free := [buf] + free;
      places := places[buf := Free];
    }
  }

  /** A driver has a buffer. */
  method HandedOut() returns (pool: Pool, buf: ComBuf)
    ensures fresh(pool) && fresh(pool.all) && pool.Valid() && buf in pool.all && pool.places[buf] == Out
    ensures pool.full[0] == [] && pool.ifThreads[0] == Nobody && pool.woken == multiset{}
  {
    pool := new Pool();
    var first, resumed := pool.SwapBufs(0, null);
    buf := first;
  }

  /** A driver has a buffer, and a receiver waits. */
  method Awaited(me: Thread) returns (pool: Pool, buf: ComBuf)
    ensures fresh(pool) && fresh(pool.all) && pool.Valid() && buf in pool.all && pool.places[buf] == Out
    ensures pool.full[0] == [] && pool.ifThreads[0] == Waiting(me) && pool.woken == multiset{}
  {
    var first;
    pool, first := HandedOut();
    var none, suspended := pool.RecvBegin(0, me);
    buf := first;
  }

  /** A buffer comes full, and wakes the receiver that waits. */
  method Fill(pool: Pool, buf: ComBuf)
    requires pool.Valid() && buf in pool.all && pool.places[buf] == Out
    requires pool.full[0] == [] && pool.ifThreads[0].Waiting?
    modifies pool, pool.all
    ensures pool.Valid() && pool.all == old(pool.all) && |pool.full[0]| == 1 && pool.ifThreads[0] == Nobody
    ensures pool.woken[0] == old(pool.woken[0]) + 1
  {
    var next, resumed := pool.SwapBufs(0, buf);
  }

  /** A receiver has been woken by a buffer. */
  method Woken(me: Thread) returns (pool: Pool)
    ensures fresh(pool) && fresh(pool.all) && pool.Valid()
    ensures |pool.full[0]| == 1 && pool.ifThreads[0] == Nobody && pool.woken[0] == 1
  {
    var buf;
    pool, buf := Awaited(me);
    Fill(pool, buf);
  }

  /** It is robbed of the buffer before it runs: by a second receiver or by one that does not block. */
  method RobbedReceiver(me: Thread, other: Thread, blocking: bool) returns (pool: Pool, stolen: ComBuf?, found: ComBuf?)
    ensures pool.Valid() && stolen != null && found == null
  {
    pool := Woken(me);
    if blocking {
      var suspended;
      stolen, suspended := pool.RecvBegin(0, other);
    } else {
      stolen := pool.RecvNoblock(0);
    }
    found := pool.RecvResume(0);
  }

  /** The first receiver is robbed by a second; a third waits, and is woken by a buffer that the first one takes. The
      third then finds nothing, though each of the two was woken for a buffer. */
  method RobbedByWoken(first: Thread, second: Thread, third: Thread)
    returns (pool: Pool, stolen: ComBuf?, taken: ComBuf?, found: ComBuf?)
    ensures pool.Valid() && stolen != null && taken != null && found == null
  {
    pool := Woken(first);
    var suspended, none;
    stolen, suspended := pool.RecvBegin(0, second);
    none, suspended := pool.RecvBegin(0, third);
    Fill(pool, stolen);
    taken := pool.RecvResume(0);
    found := pool.RecvResume(0);
  }
}

/** The file table of the flash: where files are put, and what keeps them apart. */
module SimpleFs {
  const MAX_FILES := 127 // The index of a file is a signed byte; a table may be smaller.
  const PAGE_SIZE := 264
  const FLASH_SIZE := 540672
  const MAX_NEXT := 0x1_0000 // The number of the next page has 16 bits.
  const LONGEST := 0x7000_0000 // A start, two such lengths and a page stay below 2^32 in sum.

  /** A name of three bytes. */
  type Name = s: seq<nat> | |s| == 3 witness [32, 32, 32]

  datatype File = File(live: bool, name: Name, start: nat, length: nat)

  /** Found: a place that is free. Nowhere: there is none. Diverges: the search comes back to the same place for
      ever. */
  datatype Search = Found(at: nat) | Nowhere | Diverges

  datatype Outcome = Created(index: nat) | BadName | TableFull | NoRoom | Endless

  predicate Apart(a: File, b: File) {
    a.start + a.length <= b.start || b.start + b.length <= a.start
  }

  /** No two live files share a byte or a name. */
  ghost predicate Sound(files: seq<File>) {
    forall i, j :: 0 <= i < j < |files| && files[i].live && files[j].live ==>
      Apart(files[i], files[j]) && files[i].name != files[j].name
  }

  /** The first pass lets extents touch, the second does not. */
  predicate Conflicts(f: File, at: nat, length: nat, touching: bool) {
    f.live && if touching then f.start <= at + length && f.start + f.length >= at
              else f.start < at + length && f.start + f.length > at
  }

  predicate Clear(files: seq<File>, at: nat, length: nat, touching: bool) {
    forall i :: 0 <= i < |files| ==> !Conflicts(files[i], at, length, touching)
  }

  function RoundedUp(n: nat): (r: nat)
    ensures n <= r < n + PAGE_SIZE && r % PAGE_SIZE == 0
  {
    (n + PAGE_SIZE - 1) / PAGE_SIZE * PAGE_SIZE
  }

  /** Where no file is in the way, a new one is apart from all of them. */
  lemma ClearMeansApart(files: seq<File>, at: nat, length: nat, touching: bool, f: File)
    requires Clear(files, at, length, touching) && f.start == at && f.length == length
    ensures forall i :: 0 <= i < |files| && files[i].live ==> Apart(files[i], f)
  {
    forall i | 0 <= i < |files| && files[i].live
      ensures Apart(files[i], f)
    {
      assert !Conflicts(files[i], at, length, touching);
    }
  }

  function End(f: File): nat {
    f.start + f.length
  }

  // Where the two passes look.

  /** A place for the first pass: where it starts or on the edge of a page, within the flash, and free. */
  ghost predicate Offers(files: seq<File>, start: nat, length: nat, p: nat) {
    start <= p && (p == start || p % PAGE_SIZE == 0) && p + length <= FLASH_SIZE && Clear(files, p, length, false)
  }

  /** A place for the second pass: on the edge of a page, and touched by no file; the end of the flash does not
      matter. */
  ghost predicate OffersAgain(files: seq<File>, start: nat, length: nat, p: nat) {
    p < start && p % PAGE_SIZE == 0 && Clear(files, p, length, true)
  }

  /** The first file of the table that is in the way of the second pass at p, or the number of files. */
  ghost function Blocker(files: seq<File>, length: nat, p: nat, from: nat): (i: nat)
    requires from <= |files|
    ensures from <= i <= |files| && (i < |files| ==> Conflicts(files[i], p, length, true))
    ensures forall k :: from <= k < i ==> !Conflicts(files[k], p, length, true)
    decreases |files| - from
  {
    if from == |files| || Conflicts(files[from], p, length, true) then from else Blocker(files, length, p, from + 1)
  }

  /** The second pass goes from p to e. */
  ghost predicate Leads(files: seq<File>, length: nat, p: nat, e: nat) {
    var i := Blocker(files, length, p, 0);
    i < |files| && RoundedUp(End(files[i])) == e
  }

  /** The edges the second pass comes to. */
  ghost predicate Visited(files: seq<File>, length: nat, e: nat)
    decreases e
  {
    e == 0 || exists p: nat :: p < e && Visited(files, length, p) && Leads(files, length, p, e)
  }

  /** The second pass comes to an edge it does not leave. */
  ghost predicate Trapped(files: seq<File>, start: nat, length: nat) {
    exists e: nat :: e < start && Visited(files, length, e) && Leads(files, length, e, e)
  }

  ghost predicate FirstOffer(files: seq<File>, start: nat, length: nat, p: nat) {
    Offers(files, start, length, p) && forall q: nat :: q < p ==> !Offers(files, start, length, q)
  }

  ghost predicate NoFirstOffer(files: seq<File>, start: nat, length: nat) {
    forall p: nat :: !Offers(files, start, length, p)
  }

  ghost predicate SecondOffer(files: seq<File>, start: nat, length: nat, p: nat) {
    OffersAgain(files, start, length, p) && forall q: nat :: q < p ==> !OffersAgain(files, start, length, q)
  }

  ghost predicate NoSecondOffer(files: seq<File>, start: nat, length: nat) {
    forall p: nat :: !OffersAgain(files, start, length, p)
  }

  /** What the search comes to, whatever the table. */
  ghost predicate Searched(files: seq<File>, start: nat, length: nat, found: Search) {
    if NoFirstOffer(files, start, length) then
      match found
      case Diverges => Trapped(files, start, length)
      case Nowhere => !Trapped(files, start, length) && NoSecondOffer(files, start, length)
      case Found(p) => !Trapped(files, start, length) && SecondOffer(files, start, length, p)
    else found.Found? && FirstOffer(files, start, length, found.at)
  }

  /** The edges that are skipped are in the way of the same file. */
  lemma Skipped(f: File, at: nat, p: nat, length: nat, touching: bool)
    requires Conflicts(f, at, length, touching) && at <= p < RoundedUp(End(f)) && (p == at || p % PAGE_SIZE == 0)
    ensures Conflicts(f, p, length, touching)
  {
    if p != at {
      assert p / PAGE_SIZE < RoundedUp(End(f)) / PAGE_SIZE;
      assert p <= RoundedUp(End(f)) - PAGE_SIZE;
    }
  }

  /** Every edge the search came to before at was left, for one not beyond at. */
  ghost predicate Left(files: seq<File>, length: nat, at: nat) {
    forall p: nat :: p < at && Visited(files, length, p) ==> Leaves(files, length, p, at)
  }

  ghost predicate Leaves(files: seq<File>, length: nat, p: nat, at: nat) {
    exists q: nat :: p < q <= at && Leads(files, length, p, q)
  }

  /** The edges between at and the one the search goes on to are not visited. */
  lemma {:induction false} NothingBeyond(files: seq<File>, length: nat, at: nat, e: nat)
    requires Left(files, length, at) && at < e
    requires forall q: nat :: at < q <= e ==> !Leads(files, length, at, q)
    ensures !Visited(files, length, e)
    decreases e
  {
    forall p: nat | p < e && Visited(files, length, p)
      ensures !Leads(files, length, p, e)
    {
      if p < at {
        assert Leaves(files, length, p, at);
      } else if at < p {
        NothingBeyond(files, length, at, p);
      }
    }
  }

  /** A search that has come to a free place, or past the start, was not trapped before. */
  lemma NotTrapped(files: seq<File>, start: nat, length: nat, at: nat)
    requires Left(files, length, at) && (start <= at || Clear(files, at, length, true))
    ensures !Trapped(files, start, length)
  {
    forall e: nat | e < start && Visited(files, length, e)
      ensures !Leads(files, length, e, e)
    {
      if e < at {
        assert Leaves(files, length, e, at);
      } else if at < e {
        NothingBeyond(files, length, at, e);
      }
    }
  }

  lemma LeavesOn(files: seq<File>, length: nat, at: nat, next: nat, p: nat)
    requires Left(files, length, at) && Leads(files, length, at, next) && at < next
    requires p < next && Visited(files, length, p)
    ensures Leaves(files, length, p, next)
  {
    if p < at {
      assert Leaves(files, length, p, at);
      var q: nat :| p < q <= at && Leads(files, length, p, q);
      assert q <= next;
    } else if at < p {
      NothingBeyond(files, length, at, p);
    }
  }

  /** The search goes on from an edge it has come to. */
  lemma LeftOn(files: seq<File>, length: nat, at: nat, next: nat)
    requires Left(files, length, at) && Visited(files, length, at) && Leads(files, length, at, next) && at < next
    ensures Visited(files, length, next) && Left(files, length, next)
  {
    forall p: nat | p < next && Visited(files, length, p)
      ensures Leaves(files, length, p, next)
    {
      LeavesOn(files, length, at, next, p);
    }
  }

  /** Only a file that ends on the edge of a page traps the search. */
  lemma TrapEndsOnPage(files: seq<File>, start: nat, length: nat)
    requires Trapped(files, start, length)
    ensures exists i :: 0 <= i < |files| && files[i].live && End(files[i]) % PAGE_SIZE == 0 && End(files[i]) < start
  {
    var e: nat :| e < start && Visited(files, length, e) && Leads(files, length, e, e);
    var i := Blocker(files, length, e, 0);
    assert End(files[i]) == e;
  }

  /** And one does whenever it comes first in the table and is in the way at 0. */
  lemma FirstFileTraps(files: seq<File>, start: nat, length: nat, i: nat)
    requires i < |files| && files[i].live && forall k :: 0 <= k < i ==> !files[k].live
    requires End(files[i]) % PAGE_SIZE == 0 && End(files[i]) < start && files[i].start <= length
    ensures Trapped(files, start, length)
  {
    var e := End(files[i]);
    assert RoundedUp(e) == e;
    assert Blocker(files, length, 0, 0) == i && Blocker(files, length, e, 0) == i;
    assert Leads(files, length, 0, e) && Leads(files, length, e, e);
    assert Visited(files, length, 0);
    assert Visited(files, length, e);
  }

  /** No place at all, or none that the second pass lives to see. */
  ghost predicate Hopeless(files: seq<File>, start: nat, length: nat) {
    NoFirstOffer(files, start, length) && (Trapped(files, start, length) || NoSecondOffer(files, start, length))
  }

  lemma FoundUnlessHopeless(files: seq<File>, start: nat, length: nat, found: Search)
    requires Searched(files, start, length, found)
    ensures found.Found? <==> !Hopeless(files, start, length)
  {
  }

  lemma SearchedIsClear(files: seq<File>, start: nat, length: nat, found: Search)
    requires Searched(files, start, length, found) && found.Found? && start <= MAX_NEXT * PAGE_SIZE
    ensures Clear(files, found.at, length, found.at < start) && found.at <= MAX_NEXT * PAGE_SIZE
  {
  }

  /** A file that fits nowhere in the first pass is put past the end of the flash by the second, exactly then. */
  lemma PastTheEnd(files: seq<File>, start: nat, length: nat, found: Search)
    requires Searched(files, start, length, found)
    ensures found.Found? && found.at + length > FLASH_SIZE <==>
      && NoFirstOffer(files, start, length) && !Trapped(files, start, length)
      && exists p: nat :: SecondOffer(files, start, length, p) && p + length > FLASH_SIZE
  {
    forall p: nat, q: nat | SecondOffer(files, start, length, p) && SecondOffer(files, start, length, q)
      ensures p == q
    {
      assert !(p < q) && !(q < p);
    }
  }

  // The search looks at live files only.

  ghost predicate SameLive(a: seq<File>, b: seq<File>) {
    |a| == |b| && forall i :: 0 <= i < |a| ==> a[i].live == b[i].live && (a[i].live ==> a[i] == b[i])
  }

  lemma SameClear(a: seq<File>, b: seq<File>, at: nat, length: nat, touching: bool)
    requires SameLive(a, b)
    ensures Clear(a, at, length, touching) == Clear(b, at, length, touching)
  {
    forall i | 0 <= i < |a|
      ensures Conflicts(a[i], at, length, touching) == Conflicts(b[i], at, length, touching)
    {
    }
  }

  lemma SameLeads(a: seq<File>, b: seq<File>, length: nat, p: nat, e: nat)
    requires SameLive(a, b) && Leads(a, length, p, e)
    ensures Leads(b, length, p, e)
  {
    assert Blocker(b, length, p, 0) == Blocker(a, length, p, 0);
  }

  lemma {:induction false} SameVisited(a: seq<File>, b: seq<File>, length: nat, e: nat)
    requires SameLive(a, b) && Visited(a, length, e)
    ensures Visited(b, length, e)
    decreases e
  {
    if e > 0 {
      var p: nat :| p < e && Visited(a, length, p) && Leads(a, length, p, e);
      SameVisited(a, b, length, p);
      SameLeads(a, b, length, p, e);
    }
  }

  lemma SameTrap(a: seq<File>, b: seq<File>, start: nat, length: nat)
    requires SameLive(a, b) && Trapped(a, start, length)
    ensures Trapped(b, start, length)
  {
    var e: nat :| e < start && Visited(a, length, e) && Leads(a, length, e, e);
    SameVisited(a, b, length, e);
    SameLeads(a, b, length, e, e);
  }

  lemma SameOffers(a: seq<File>, b: seq<File>, start: nat, length: nat)
    requires SameLive(a, b)
    ensures forall p: nat :: Offers(a, start, length, p) == Offers(b, start, length, p)
    ensures forall p: nat :: OffersAgain(a, start, length, p) == OffersAgain(b, start, length, p)
  {
    forall p: nat
      ensures Offers(a, start, length, p) == Offers(b, start, length, p)
      ensures OffersAgain(a, start, length, p) == OffersAgain(b, start, length, p)
    {
      SameClear(a, b, p, length, false);
      SameClear(a, b, p, length, true);
    }
  }

  lemma SameSearch(a: seq<File>, b: seq<File>, start: nat, length: nat, found: Search)
    requires SameLive(a, b) && Searched(a, start, length, found)
    ensures Searched(b, start, length, found)
  {
    SameOffers(a, b, start, length);
    if Trapped(a, start, length) {
      SameTrap(a, b, start, length);
    }
    if Trapped(b, start, length) {
      SameTrap(b, a, start, length);
    }
  }

  class Table {
    var files: seq<File>
    var nextPage: nat
    var locked: bool

    ghost predicate Valid()
      reads this
    {
      && |files| <= MAX_FILES && Sound(files) && nextPage < MAX_NEXT
      && forall i :: 0 <= i < |files| && files[i].live ==> End(files[i]) <= LONGEST + MAX_NEXT * PAGE_SIZE
    }

    /** The index of the live file with the name, or -1. */
    method FindFile(name: Name) returns (i: int)
      requires Valid()
      ensures -1 <= i < |files|
      ensures i >= 0 ==> files[i].live && files[i].name == name
      ensures i == -1 ==> forall k :: 0 <= k < |files| && files[k].live ==> files[k].name != name
    {
      i := 0;
      while i < |files|
        invariant 0 <= i <= |files|
        invariant forall k :: 0 <= k < i && files[k].live ==> files[k].name != name
      {
        if files[i].live && files[i].name == name {
          return;
        }
        i := i + 1;
      }
      i := -1;
    }

    /** The first file in the way of a place, or the number of files. */
    method FirstConflict(at: nat, length: nat, touching: bool) returns (i: nat)
      requires Valid()
      ensures i <= |files|
      ensures i < |files| ==> Conflicts(files[i], at, length, touching)
      ensures forall k :: 0 <= k < i ==> !Conflicts(files[k], at, length, touching)
    {
      i := 0;
      while i < |files|
        invariant i <= |files|
        invariant forall k :: 0 <= k < i ==> !Conflicts(files[k], at, length, touching)
      {
        if Conflicts(files[i], at, length, touching) {
          return;
        }
        i := i + 1;
      }
    }

    /** From start to the end of the flash: the first place there is, or none because there is none. */
    method FirstPass(start: nat, length: nat) returns (found: Search)
      requires Valid() && start < MAX_NEXT * PAGE_SIZE && length <= LONGEST
      ensures match found
        case Found(p) => FirstOffer(files, start, length, p)
        case Nowhere => NoFirstOffer(files, start, length)
        case Diverges => false
    {
      var ret := start;
      while ret + length <= FLASH_SIZE
        invariant start <= ret && (ret == start || ret % PAGE_SIZE == 0)
        invariant ret + length < 0x1_0000_0000
        invariant forall p: nat :: p < ret ==> !Offers(files, start, length, p)
        decreases FLASH_SIZE - ret
      {
        var i := FirstConflict(ret, length, false);
        if i == |files| {
          return Found(ret);
        }
        forall p: nat | ret <= p < RoundedUp(End(files[i]))
          ensures !Offers(files, start, length, p)
        {
          if p == ret || p % PAGE_SIZE == 0 {
            Skipped(files[i], ret, p, length, false);
          }
        }
        ret := RoundedUp(End(files[i]));
      }
      found := Nowhere;
    }

    /** From 0 to start: the first place there is, or none because there is none, or never anything because the search
        is trapped. */
    method SecondPass(start: nat, length: nat) returns (found: Search)
      requires Valid() && start < MAX_NEXT * PAGE_SIZE && length <= LONGEST
      ensures found.Diverges? <==> Trapped(files, start, length)
      ensures found.Found? ==> SecondOffer(files, start, length, found.at)
      ensures found.Nowhere? ==> NoSecondOffer(files, start, length)
    {
      var ret := 0;
      while ret < start
        invariant ret % PAGE_SIZE == 0 && Visited(files, length, ret) && Left(files, length, ret)
        invariant ret + length < 0x1_0000_0000
        invariant forall p: nat :: p < ret ==> !OffersAgain(files, start, length, p)
        decreases start - ret
      {
        var i := FirstConflict(ret, length, true);
        if i == |files| {
          NotTrapped(files, start, length, ret);
          return Found(ret);
        }
        var next := RoundedUp(End(files[i]));
        assert Blocker(files, length, ret, 0) == i;
        if next == ret {
          return Diverges;
        }
        forall p: nat | ret <= p < next && p % PAGE_SIZE == 0
          ensures !OffersAgain(files, start, length, p)
        {
          Skipped(files[i], ret, p, length, true);
        }
        LeftOn(files, length, ret, next);
        ret := next;
      }
      NotTrapped(files, start, length, ret);
      found := Nowhere;
    }

    /** What the first pass finds fits in the flash as well; the second does not look at the end of the flash. */
    method FindFreePages(start: nat, length: nat) returns (found: Search)
      requires Valid() && start < MAX_NEXT * PAGE_SIZE && length <= LONGEST
      ensures Searched(files, start, length, found)
    {
      found := FirstPass(start, length);
      if found == Nowhere {
        found := SecondPass(start, length);
      }
    }

    /** The first entry that is not live, or the number of entries. */
    method Unused() returns (i: nat)
      ensures i <= |files| && (i < |files| ==> !files[i].live)
      ensures forall k :: 0 <= k < i ==> files[k].live
    {
      i := 0;
      while i < |files|
        invariant i <= |files| && forall k :: 0 <= k < i ==> files[k].live
      {
        if !files[i].live {
          return;
        }
        i := i + 1;
      }
    }

    /** The entry for a name: its own, or one that was not live and has the name now, or the number of entries. */
    method Reserve(name: Name) returns (i: nat)
      requires Valid()
      modifies this`files
      ensures Valid() && SameLive(files, old(files)) && SameLive(old(files), files)
      ensures if Crowded(old(files), name) then i == |files| && files == old(files)
        else Chosen(old(files), name, i) && files == old(files)[i := old(files)[i].(name := name)]
    {
      var found := FindFile(name);
      if found != -1 {
        return found;
      }
      i := Unused();
      if i < |files| {
        files := files[i := files[i].(name := name)];
      }
    }

    /** The file is entered where it was found to fit. */
    method Settle(i: nat, name: Name, at: nat, length: nat, touching: bool)
      requires Valid() && i < |files| && Clear(files, at, length, touching)
      requires at <= MAX_NEXT * PAGE_SIZE && length <= LONGEST
      requires forall k :: 0 <= k < |files| && k != i && files[k].live ==> files[k].name != name
      modifies this`files, this`nextPage
      ensures Valid() && files == old(files)[i := File(true, name, at, length)]
      ensures nextPage == RoundedUp(at + length) / PAGE_SIZE % MAX_NEXT
    {
      Settled(files, i, File(true, name, at, length), touching);
      files := files[i := File(true, name, at, length)];
      nextPage := (at + length + PAGE_SIZE - 1) / PAGE_SIZE % MAX_NEXT;
    }

    /** A place is looked for and the file entered there. */
    method Allocate(i: nat, name: Name, length: nat) returns (r: Outcome)
      requires Valid() && i < |files| && length <= LONGEST
      requires forall k :: 0 <= k < |files| && k != i && files[k].live ==> files[k].name != name
      modifies this`files, this`nextPage
      ensures Valid() && r in {Created(i), NoRoom, Endless}
      ensures |files| == |old(files)| && Searched(old(files), old(nextPage) * PAGE_SIZE, length, AsSearch(r, files))
      ensures if r.Created? then
          && files == old(files)[i := File(true, name, files[i].start, length)]
          && nextPage == RoundedUp(End(files[i])) / PAGE_SIZE % MAX_NEXT
        else files == old(files) && nextPage == old(nextPage)
    {
      var start := nextPage * PAGE_SIZE;
      var search := FindFreePages(start, length);
      if !search.Found? {
        return if search == Diverges then Endless else NoRoom;
      }
      SearchedIsClear(files, start, length, search);
      Settle(i, name, search.at, length, search.at < start);
      return Created(i);
    }

    /** A file of that name and length, new or in the place of the old one. When the search finds nothing the lock is
        not given back, and the next operation waits for ever. */
    method Create(name: seq<nat>, length: nat) returns (r: Outcome)
      requires Valid() && !locked && |name| == 4 && length <= LONGEST
      modifies this
      ensures Valid() && |files| == |old(files)|
      ensures r == BadName <==> !Printable(name)
      ensures r == TableFull <==> Printable(name) && Crowded(old(files), name[..3])
      ensures Printable(name) && !Crowded(old(files), name[..3]) ==>
        Searched(old(files), old(nextPage) * PAGE_SIZE, length, AsSearch(r, files))
      ensures locked <==>
        Printable(name) && !Crowded(old(files), name[..3]) && Hopeless(old(files), old(nextPage) * PAGE_SIZE, length)
      ensures r.Created? ==>
        && r.index < |files| && Chosen(old(files), name[..3], r.index)
        && files == old(files)[r.index := File(true, name[..3], files[r.index].start, length)]
        && nextPage == RoundedUp(End(files[r.index])) / PAGE_SIZE % MAX_NEXT
      ensures !r.Created? ==> SameLive(old(files), files) && nextPage == old(nextPage)
    {
      if !Printable(name) {
        return BadName;
      }
      locked := true;
      ghost var nextBefore := nextPage;
      var i := Reserve(name[..3]);
      if i == |files| {
        locked := false;
        return TableFull;
      }
      ghost var before := files;
      r := Allocate(i, name[..3], length);
      SameSearch(before, old(files), nextBefore * PAGE_SIZE, length, AsSearch(r, files));
      FoundUnlessHopeless(old(files), nextBefore * PAGE_SIZE, length, AsSearch(r, files));
      if r.Created? {
        locked := false;
      }
    }

    /** The file takes the new name, and one that had it before is gone; a file renamed to its own name is gone too. */
    method Rename(src: Name, dst: seq<nat>)
      requires Valid() && !locked && |dst| == 4
      modifies this`files
      ensures Valid() && |files| == |old(files)|
      ensures !Printable(dst) || !Named(old(files), src) ==> files == old(files)
      ensures Printable(dst) && Named(old(files), src) ==>
        forall i :: 0 <= i < |files| ==>
          && files[i].start == old(files)[i].start && files[i].length == old(files)[i].length
          && files[i].live == (old(files)[i].live && old(files)[i].name != dst[..3])
          && (old(files)[i].live ==>
                files[i].name == if old(files)[i].name == src then dst[..3] else old(files)[i].name)
    {
      if !Printable(dst) {
        return;
      }
      var srcIdx := FindFile(src);
      if srcIdx != -1 {
        var dstIdx := FindFile(dst[..3]);
        if dstIdx != -1 {
          files := files[dstIdx := files[dstIdx].(live := false)];
        }
        files := files[srcIdx := files[srcIdx].(name := dst[..3])];
      }
    }

    method Format()
      requires Valid() && !locked
      modifies this`files
      ensures Valid() && |files| == |old(files)|
      ensures forall i :: 0 <= i < |files| ==> files[i] == old(files)[i].(live := false)
    {
      ghost var before := files;
      for i := 0 to |files|
        invariant |files| == |before|
        invariant forall k :: 0 <= k < |files| ==> files[k] == if k < i then before[k].(live := false) else before[k]
      {
        files := files[i := files[i].(live := false)];
      }
    }
  }

  /** Three printable characters and the end of the string. */
  predicate Printable(name: seq<nat>)
    requires |name| == 4
  {
    (forall i :: 0 <= i < 3 ==> 32 <= name[i] < 127) && name[3] == 0
  }

  ghost predicate Named(files: seq<File>, name: Name) {
    exists i :: 0 <= i < |files| && files[i].live && files[i].name == name
  }

  /** The name is new, and every entry is taken. */
  ghost predicate Crowded(files: seq<File>, name: Name) {
    !Named(files, name) && forall i :: 0 <= i < |files| ==> files[i].live
  }

  /** The entry a file goes to: that of its name, or the first that is not live. */
  ghost predicate Chosen(files: seq<File>, name: Name, i: nat) {
    && i < |files|
    && if Named(files, name) then files[i].live && files[i].name == name
       else !files[i].live && forall k :: 0 <= k < i ==> files[k].live
  }

  ghost function AsSearch(r: Outcome, files: seq<File>): Search {
    match r
    case Created(i) => if i < |files| then Found(files[i].start) else Nowhere
    case Endless => Diverges
    case _ => Nowhere
  }

  /** A file settled where nothing is in the way, under a name nobody else has. */
  lemma Settled(files: seq<File>, i: nat, f: File, touching: bool)
    requires Sound(files) && i < |files| && Clear(files, f.start, f.length, touching)
    requires forall k :: 0 <= k < |files| && k != i && files[k].live ==> files[k].name != f.name
    ensures Sound(files[i := f])
  {
    ClearMeansApart(files, f.start, f.length, touching, f);
  }

  // Runs that go wrong, from a table without files.

  const A: seq<nat> := [97, 97, 97, 0]
  const B: seq<nat> := [98, 98, 98, 0]
  const C: seq<nat> := [99, 99, 99, 0]

  const EMPTY := File(false, [32, 32, 32], 0, 0)

  /** Where the search starts is the first place there is, if it is one. */
  lemma StartIsPlace(files: seq<File>, start: nat, length: nat, found: Search)
    requires Searched(files, start, length, found) && start + length <= FLASH_SIZE && Clear(files, start, length, false)
    ensures found == Found(start)
  {
    assert Offers(files, start, length, start);
  }

  /** A new file where the search starts. */
  method Make(t: Table, i: nat, name: seq<nat>, length: nat)
    requires t.Valid() && !t.locked && |name| == 4 && Printable(name)
    requires i < |t.files| && Chosen(t.files, name[..3], i) && !Named(t.files, name[..3])
    requires t.nextPage * PAGE_SIZE + length <= FLASH_SIZE && Clear(t.files, t.nextPage * PAGE_SIZE, length, false)
    modifies t
    ensures t.Valid() && !t.locked
    ensures t.files == old(t.files)[i := File(true, name[..3], old(t.nextPage) * PAGE_SIZE, length)]
    ensures t.nextPage == RoundedUp(old(t.nextPage) * PAGE_SIZE + length) / PAGE_SIZE
  {
    ghost var files, start := t.files, t.nextPage * PAGE_SIZE;
    assert Offers(files, start, length, start);
    var r := t.Create(name, length);
    StartIsPlace(files, start, length, AsSearch(r, t.files));
  }

  /** A table with three entries and one file, of the given length. */
  method WithFirstFile(length: nat) returns (t: Table)
    requires length <= FLASH_SIZE
    ensures fresh(t) && t.Valid() && !t.locked && t.nextPage == RoundedUp(length) / PAGE_SIZE
    ensures t.files == [File(true, A[..3], 0, length), EMPTY, EMPTY]
  {
    t := new Table;
    t.files, t.nextPage, t.locked := [EMPTY, EMPTY, EMPTY], 0, false;
    Make(t, 0, A, length);
  }

  /** One file fills the flash. There is no room for another, and the lock is kept. */
  method FullFlashKeepsLock() returns (t: Table, r: Outcome)
    ensures fresh(t) && t.Valid() && r == NoRoom && t.locked
  {
    t := WithFirstFile(FLASH_SIZE);
    ghost var files := t.files;
    forall p: nat | p < FLASH_SIZE
      ensures Conflicts(files[0], p, 1, true)
    {
    }
    assert !files[1].live;
    r := t.Create(B, 1);
  }

  /** Two files fill the flash. The search for room for another never ends. */
  method FullFlashStopsSearch() returns (t: Table, r: Outcome)
    ensures fresh(t) && t.Valid() && r == Endless && t.locked
  {
    t := WithFirstFile(PAGE_SIZE);
    assert A[..3][0] != B[..3][0];
    Make(t, 1, B, FLASH_SIZE - PAGE_SIZE);
    FirstFileTraps(t.files, FLASH_SIZE, 1, 0);
    assert !t.files[2].live;
    r := t.Create(C, 1);
  }

  /** Where the only file ends within the first page, the second pass finds the next one. */
  lemma SecondPageIsPlace(files: seq<File>, start: nat, length: nat)
    requires |files| > 0 && files[0].live && files[0].start == 0 && 0 < files[0].length < PAGE_SIZE
    requires forall i :: 0 < i < |files| ==> !files[i].live
    requires PAGE_SIZE < start && start + length > FLASH_SIZE
    ensures forall found :: Searched(files, start, length, found) ==> found == Found(PAGE_SIZE)
  {
    if Trapped(files, start, length) {
      TrapEndsOnPage(files, start, length);
      assert false;
    }
    assert OffersAgain(files, start, length, PAGE_SIZE);
    assert Conflicts(files[0], 0, length, true);
  }

  /** A file shorter than the flash is put past its end: of the first two files the second is renamed to its own name
      and is gone, and the third is as long as the flash but for 100 bytes. */
  method EndIsPassed() returns (t: Table, r: Outcome)
    ensures fresh(t) && t.Valid() && r.Created? && r.index < |t.files|
    ensures t.files[r.index].length < FLASH_SIZE < End(t.files[r.index])
  {
    t := WithFirstFile(PAGE_SIZE - 1);
    assert A[..3][0] != B[..3][0];
    Make(t, 1, B, 1999 * PAGE_SIZE);
    assert t.files[1].live;
    t.Rename(B[..3], B);
    SecondPageIsPlace(t.files, 2000 * PAGE_SIZE, FLASH_SIZE - 100);
    r := t.Create(C, FLASH_SIZE - 100);
  }
}

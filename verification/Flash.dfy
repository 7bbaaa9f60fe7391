/** The flash driver: two page buffers written back late, seen through reads and writes as one flat memory. */
module Flash {
  import opened Crc

  const PAGE_SIZE := 264
  const MAX_PAGES := 2048
  const SIZE := PAGE_SIZE * MAX_PAGES

  const UNBUFFERED := 3
  const BUFFERED := 4

  datatype Selected = Buffer1 | Buffer2

  const DEFAULT_BUFFER := Buffer1

  function Other(buffer: Selected): Selected {
    if buffer == Buffer1 then Buffer2 else Buffer1
  }

  function In16Bits(n: nat): nat
    requires n < 0x2_0000
  {
    if n < 0x1_0000 then n else n - 0x1_0000
  }

  /** A byte of the flash. */
  datatype Cell = Cell(bits: Byte)

  function Bytes(s: seq<Cell>): (r: seq<Byte>)
    ensures |r| == |s|
  {
    seq(|s|, i requires 0 <= i < |s| => s[i].bits)
  }

  datatype Kept = Kept(dirty: bool, page: nat, buffer: Selected, other: seq<Cell>, memory: seq<Cell>)

  datatype Status = Ok | BadMode

  /** The first n bytes of the data laid over s from at on. */
  function Laid(s: seq<Cell>, at: nat, data: seq<Cell>, n: nat): (r: seq<Cell>)
    requires n <= |data| && at + n <= |s|
    ensures |r| == |s|
  {
    seq(|s|, i requires 0 <= i < |s| => if at <= i < at + n then data[i - at] else s[i])
  }

  function Over(s: seq<Cell>, at: nat, data: seq<Cell>): (r: seq<Cell>)
    requires at + |data| <= |s|
    ensures |r| == |s|
  {
    Laid(s, at, data, |data|)
  }

  /** The n bytes of s from at on. */
  function Range(s: seq<Cell>, at: nat, n: nat): (r: seq<Cell>)
    requires at + n <= |s|
    ensures |r| == n
  {
    seq(n, i requires 0 <= i < n => s[at + i])
  }

  /** The first n bytes of the data are those of s from at on. */
  ghost predicate Equal(s: seq<Cell>, at: nat, data: seq<Cell>, n: nat)
    requires n <= |data| && at + n <= |s|
  {
    forall i :: 0 <= i < n ==> data[i] == s[at + i]
  }

  function PageAt(s: seq<Cell>, page: nat): (r: seq<Cell>)
    requires |s| == SIZE && page < MAX_PAGES
    ensures |r| == PAGE_SIZE
  {
    seq(PAGE_SIZE, i requires 0 <= i < PAGE_SIZE => s[page * PAGE_SIZE + i])
  }

  function WithPage(s: seq<Cell>, page: nat, bytes: seq<Cell>): (r: seq<Cell>)
    requires |s| == SIZE && page < MAX_PAGES && |bytes| == PAGE_SIZE
    ensures |r| == SIZE
  {
    Over(s, page * PAGE_SIZE, bytes)
  }

  /** The sum of the offset on the page and the count has more than 16 bits. */
  predicate Wraps(at: nat, count: nat) {
    at % PAGE_SIZE + count >= 0x1_0000
  }

  /** What becomes of some bytes when data is written over them: if the sum wraps, the whole data goes to the buffer of
      its first page, which then holds what the chip makes of that. */
  function Put(s: seq<Cell>, at: nat, data: seq<Cell>, spilled: seq<Cell>): (r: seq<Cell>)
    requires |s| == SIZE && at + |data| <= SIZE && data != [] && |spilled| == PAGE_SIZE
  {
    if Wraps(at, |data|) then WithPage(s, at / PAGE_SIZE, spilled) else Over(s, at, data)
  }

  // Laws of laying over.

  lemma OverInside(s: seq<Cell>, page: nat, bytes: seq<Cell>, offset: nat, data: seq<Cell>)
    requires |s| == SIZE && page < MAX_PAGES && |bytes| == PAGE_SIZE && offset + |data| <= PAGE_SIZE
    ensures WithPage(s, page, Over(bytes, offset, data)) ==
      Over(WithPage(s, page, bytes), page * PAGE_SIZE + offset, data)
  {
  }

  lemma PageKept(s: seq<Cell>, page: nat)
    requires |s| == SIZE && page < MAX_PAGES
    ensures WithPage(s, page, PageAt(s, page)) == s
  {
  }

  lemma PageTwice(s: seq<Cell>, page: nat, x: seq<Cell>, y: seq<Cell>)
    requires |s| == SIZE && page < MAX_PAGES && |x| == |y| == PAGE_SIZE
    ensures WithPage(WithPage(s, page, x), page, y) == WithPage(s, page, y)
    ensures PageAt(WithPage(s, page, x), page) == x
  {
  }

  lemma LaidNothing(s: seq<Cell>, at: nat, data: seq<Cell>)
    requires at <= |s|
    ensures Laid(s, at, data, 0) == s
  {
  }

  /** The next part of some data goes on what was laid before; at first that is the base. */
  lemma LaidNext(base: seq<Cell>, at: nat, data: seq<Cell>, i: nat, n: nat)
    requires at + |data| <= |base| && i + n <= |data|
    ensures Over(Laid(base, at, data, i), at + i, Range(data, i, n)) == Laid(base, at, data, i + n)
    ensures i == 0 ==> Over(base, at, Range(data, i, n)) == Laid(base, at, data, i + n)
  {
  }

  /** The chip: its memory, and what its commands do to it and to its two buffers. */
  class Chip {
    var memory: seq<Cell>
    var buffer1: seq<Cell>
    var buffer2: seq<Cell>

    ghost predicate Valid()
      reads this
    {
      |memory| == SIZE && |buffer1| == PAGE_SIZE && |buffer2| == PAGE_SIZE
    }

    function Buffer(which: Selected): seq<Cell>
      reads this
    {
      if which.Buffer1? then buffer1 else buffer2
    }

    method SetBuffer(which: Selected, bytes: seq<Cell>)
      requires Valid() && |bytes| == PAGE_SIZE
      modifies this`buffer1, this`buffer2
      ensures Valid() && Buffer(which) == bytes
      ensures Buffer(Other(which)) == old(Buffer(Other(which)))
    {
      if which.Buffer1? {
        buffer1 := bytes;
      } else {
        buffer2 := bytes;
      }
    }

    method FillBuffer(which: Selected, page: nat)
      requires Valid() && page < MAX_PAGES
      modifies this`buffer1, this`buffer2
      ensures Valid() && Buffer(which) == PageAt(memory, page)
      ensures Buffer(Other(which)) == old(Buffer(Other(which)))
    {
      SetBuffer(which, PageAt(memory, page));
    }

    method WriteBuffer(which: Selected, offset: nat, bytes: seq<Cell>)
      requires Valid() && offset + |bytes| <= PAGE_SIZE
      modifies this`buffer1, this`buffer2
      ensures Valid() && Buffer(which) == Over(old(Buffer(which)), offset, bytes)
      ensures Buffer(Other(which)) == old(Buffer(Other(which)))
    {
      SetBuffer(which, Over(Buffer(which), offset, bytes));
    }

    method ErasePage(page: nat)
      requires Valid() && page < MAX_PAGES
      modifies this`memory
      ensures Valid() && exists blank :: |blank| == PAGE_SIZE && memory == WithPage(old(memory), page, blank)
    {
      var blank := seq(PAGE_SIZE, _ => Cell([true, true, true, true, true, true, true, true]));
      memory := WithPage(memory, page, blank);
    }

    method FlushBuffer(which: Selected, page: nat)
      requires Valid() && page < MAX_PAGES
      modifies this`memory
      ensures Valid() && memory == WithPage(old(memory), page, Buffer(which))
    {
      memory := WithPage(memory, page, Buffer(which));
    }

    /** The checksum of a range of the memory, byte by byte as it is read. */
    method CrcMemory(at: nat, length: nat) returns (crc: Register)
      requires Valid() && at + length <= SIZE
      ensures crc == Checksum(Bytes(Range(memory, at, length)))
    {
      ghost var range := Bytes(Range(memory, at, length));
      crc := INITIAL_VALUE;
      for i := 0 to length
        invariant crc == Fed(range[..i])
      {
        FedByte(range, i);
        crc := ShiftByte(crc, memory[at + i].bits);
      }
      FedAll(range);
      crc := Augment(crc);
    }

    method CompareBuffer(which: Selected, page: nat) returns (differs: bool)
      requires Valid() && page < MAX_PAGES
      ensures differs <==> Buffer(which) != PageAt(memory, page)
    {
      differs := Buffer(which) != PageAt(memory, page);
    }
  }

  class Driver {
    const chip: Chip
    var addr: nat
    var curBuff: Selected
    var curPage: nat
    var dirty: bool
    var mode: nat

    /** What a reader of the flash sees. */
    ghost function Flat(): (s: seq<Cell>)
      requires chip.Valid() && curPage <= MAX_PAGES
      reads this`dirty, this`curPage, this`curBuff, chip
      ensures |s| == SIZE
    {
      if dirty && curPage < MAX_PAGES then WithPage(chip.memory, curPage, chip.Buffer(curBuff)) else chip.memory
    }

    /** What a buffered write to the current page goes on from. */
    ghost function Held(): (s: seq<Cell>)
      requires chip.Valid() && curPage <= MAX_PAGES
      reads this`curPage, this`curBuff, chip
      ensures |s| == SIZE
    {
      if curPage < MAX_PAGES then WithPage(chip.memory, curPage, chip.Buffer(curBuff)) else chip.memory
    }

    /** Good enough to go on. */
    ghost predicate Sane()
      reads this`dirty, this`curPage, chip
    {
      chip.Valid() && curPage <= MAX_PAGES && (dirty ==> curPage < MAX_PAGES)
    }

    /** What the driver keeps in valid modes. */
    ghost predicate Valid()
      reads this`dirty, this`curPage, this`curBuff, this`mode, chip
    {
      && Sane() && (dirty ==> mode == BUFFERED)
      && (mode == BUFFERED && curPage < MAX_PAGES && !dirty ==> chip.Buffer(curBuff) == PageAt(chip.memory, curPage))
    }

    /** A page written on from a valid state is written on from what a reader sees. */
    lemma HeldIsFlat()
      requires Valid() && mode == BUFFERED
      ensures Held() == Flat()
    {
      if curPage < MAX_PAGES {
        PageKept(chip.memory, curPage);
      }
    }

    /** The state the driver starts in. */
    constructor (chip: Chip)
      requires chip.Valid()
      ensures Valid() && this.chip == chip && Flat() == chip.memory && mode == UNBUFFERED && addr == 0 && !dirty
    {
      this.chip := chip;
      mode := UNBUFFERED;
      addr := 0;
      curBuff := Buffer1;
      curPage := MAX_PAGES;
      dirty := false;
    }

    /** A dirty buffer goes to its page. */
    method WriteBack()
      requires Sane()
      modifies this`dirty, chip`memory
      ensures Sane() && !dirty && Flat() == old(Flat()) == chip.memory
      ensures Valid() <==> old(dirty || Valid())
    {
      if dirty {
        chip.FlushBuffer(curBuff, curPage);
        dirty := false;
        PageTwice(old(chip.memory), curPage, chip.Buffer(curBuff), chip.Buffer(curBuff));
      }
    }

    method Seek(to: nat)
      requires Sane()
      modifies this`addr
      ensures Sane() && addr == to && Flat() == old(Flat()) && Held() == old(Held()) && Valid() == old(Valid())
    {
      addr := to;
    }

    /** An unknown mode is recorded all the same; that is harmless exactly if no buffer was dirty. From such a mode the
        dirty buffer does not survive the way back to the buffered mode. */
    method SetMode(to: nat) returns (status: Status)
      requires Sane()
      modifies this, chip`memory
      ensures Sane() && mode == to && addr == old(addr)
      ensures Flat() == if to == BUFFERED && old(mode) != BUFFERED then old(chip.memory) else old(Flat())
      ensures status == if to == old(mode) || to == UNBUFFERED || to == BUFFERED then Ok else BadMode
      ensures old(Valid()) ==> Flat() == old(Flat()) && (Valid() <==> status == Ok || !old(dirty))
      ensures to == old(mode) || status == BadMode ==>
        curBuff == old(curBuff) && curPage == old(curPage) && dirty == old(dirty) && chip.memory == old(chip.memory)
      ensures to != old(mode) && to == BUFFERED ==> curBuff == Buffer1 && curPage == MAX_PAGES && !dirty
    {
      if mode == to {
        return Ok;
      }
      mode := to;
      if to == UNBUFFERED {
        if dirty {
          chip.FlushBuffer(curBuff, curPage);
          dirty := false;
        }
        status := Ok;
      } else if to == BUFFERED {
        curBuff := Buffer1;
        curPage := MAX_PAGES;
        dirty := false;
        status := Ok;
      } else {
        status := BadMode;
      }
    }

    /** A range of so many bytes from the address on, or from the start of its page, reaches the page in the buffer. */
    predicate Reaches(reach: nat)
      reads this`addr, this`dirty, this`curPage
    {
      dirty && addr / PAGE_SIZE <= curPage <= addr / PAGE_SIZE + reach / PAGE_SIZE
    }

    /** The dirty page is written back if it overlaps the range that is about to be read, whose end is taken to be
        reach bytes from the start of its page. */
    method Uncover(count: nat, reach: nat)
      requires Sane() && addr + count <= SIZE
      modifies this`dirty, chip`memory
      ensures Sane() && Flat() == old(Flat()) && (old(Valid()) ==> Valid())
      ensures chip.memory == if old(Reaches(reach)) then old(Flat()) else old(chip.memory)
      ensures old(Reaches(reach)) || !old(Reaches(addr % PAGE_SIZE + count)) ==>
        Range(chip.memory, addr, count) == Range(Flat(), addr, count)
    {
      if Reaches(reach) {
        WriteBack();
      }
      OutsideOfPage(chip.memory, curPage, chip.Buffer(curBuff), addr, count);
    }

    /** The address stays where it is. The end of the range is computed in 16 bits: if the sum wraps, the dirty page may
        be missed, and what is read is right exactly if the memory happens to hold the same. */
    method Read(count: nat) returns (data: seq<Cell>)
      requires Sane() && addr + count <= SIZE && count < 0x1_0000
      modifies this`dirty, chip`memory
      ensures Sane() && Flat() == old(Flat()) && (old(Valid()) ==> Valid())
      ensures data == Range(chip.memory, addr, count)
      ensures var sum := addr % PAGE_SIZE + count;
        var missed := old(Reaches(addr % PAGE_SIZE + count)) && !old(Reaches(In16Bits(addr % PAGE_SIZE + count)));
        && (sum < 0x1_0000 ==> !missed)
        && (missed ==> chip.memory == old(chip.memory))
        && (data == Range(Flat(), addr, count) <==>
              !missed || Range(old(chip.memory), addr, count) == Range(Flat(), addr, count))
    {
      Uncover(count, In16Bits(addr % PAGE_SIZE + count));
      data := Range(chip.memory, addr, count);
    }

    /** The buffer comes to hold another page, which is erased already; a page that is about to be
        overwritten whole is not read first. */
    method Turn(page: nat, whole: bool)
      requires Sane() && mode == BUFFERED && page < MAX_PAGES && page != curPage
      modifies this`dirty, this`curBuff, this`curPage, chip
      ensures Sane() && !dirty && curPage == page && curBuff == Other(old(curBuff))
      ensures !whole ==> chip.Buffer(curBuff) == PageAt(old(Flat()), page)
      ensures WithPage(chip.memory, page, PageAt(old(Flat()), page)) == old(Flat())
    {
      WriteBack();
      ghost var flat := chip.memory;
      curBuff := if curBuff == Buffer1 then Buffer2 else Buffer1;
      curPage := page;
      if !whole {
        chip.FillBuffer(curBuff, page);
      }
      chip.ErasePage(page);
      Beneath(flat, chip.memory, page);
    }

    /** A write to the page that is in the buffer goes on from the buffer; any other starts from what a reader sees. */
    method WriteBuffered(page: nat, offset: nat, bytes: seq<Cell>)
      requires Sane() && page < MAX_PAGES && offset + |bytes| <= PAGE_SIZE && mode == BUFFERED
      modifies this`dirty, this`curBuff, this`curPage, chip
      ensures Valid() && dirty && curPage == page
      ensures curBuff == if page == old(curPage) then old(curBuff) else Other(old(curBuff))
      ensures page == old(curPage) ==> chip.memory == old(chip.memory)
      ensures Flat() ==
        Over(if page == old(curPage) then old(Held()) else old(Flat()), page * PAGE_SIZE + offset, bytes)
    {
      if page == curPage {
        OverInside(chip.memory, page, chip.Buffer(curBuff), offset, bytes);
      } else {
        ghost var flat, held := Flat(), PageAt(Flat(), page);
        Turn(page, |bytes| == PAGE_SIZE);
        WrittenPage(flat, chip.memory, page, held, chip.Buffer(curBuff), offset, bytes);
      }
      chip.WriteBuffer(curBuff, offset, bytes);
      dirty := true;
    }

    /** A write without the buffers works in the default one, and leaves a dirty page as it was unless it is there. */
    method WriteThrough(page: nat, offset: nat, bytes: seq<Cell>)
      requires Sane() && page < MAX_PAGES && offset + |bytes| <= PAGE_SIZE && mode != BUFFERED
      modifies chip
      ensures Sane() && chip.memory == Over(old(chip.memory), page * PAGE_SIZE + offset, bytes)
      ensures chip.Buffer(DEFAULT_BUFFER) == PageAt(chip.memory, page)
      ensures chip.Buffer(Other(DEFAULT_BUFFER)) == old(chip.Buffer(Other(DEFAULT_BUFFER)))
    {
      ghost var flat, held := chip.memory, PageAt(chip.memory, page);
      chip.FillBuffer(DEFAULT_BUFFER, page);
      chip.ErasePage(page);
      Beneath(flat, chip.memory, page);
      WrittenPage(flat, chip.memory, page, held, held, offset, bytes);
      chip.WriteBuffer(DEFAULT_BUFFER, offset, bytes);
      PageTwice(chip.memory, page, chip.Buffer(DEFAULT_BUFFER), held);
      chip.FlushBuffer(DEFAULT_BUFFER, page);
    }

    /** What a write goes on from. */
    ghost function Base(): (s: seq<Cell>)
      requires Sane()
      reads this, chip
      ensures |s| == SIZE
    {
      if mode != BUFFERED then chip.memory else if addr / PAGE_SIZE == curPage then Held() else Flat()
    }

    /** What it leaves to be written on. */
    ghost function Written(): (s: seq<Cell>)
      requires Sane()
      reads this`dirty, this`curPage, this`curBuff, this`mode, chip
      ensures |s| == SIZE
    {
      if mode != BUFFERED then chip.memory else Flat()
    }

    /** What the driver knows of its buffers, what is in the one that is not used by default, and in the memory. */
    ghost function Keeping(): Kept
      reads this`dirty, this`curPage, this`curBuff, chip
    {
      Kept(dirty, curPage, curBuff, chip.Buffer(Other(DEFAULT_BUFFER)), chip.memory)
    }

    /** The driver as a write from one page to another leaves it. */
    ghost predicate Left(was: Kept, first: nat, last: nat)
      requires Sane() && last < MAX_PAGES
      reads this`dirty, this`curPage, this`curBuff, this`mode, chip
    {
      if mode == BUFFERED then
        && dirty && curPage == last
        && (first == last ==> curBuff == if last == was.page then was.buffer else Other(was.buffer))
        && (first == last == was.page ==> chip.memory == was.memory)
      else Keeping() == was.(memory := chip.memory) && chip.Buffer(DEFAULT_BUFFER) == PageAt(chip.memory, last)
    }

    /** The part of a write that falls on one page. */
    method WriteChunk(page: nat, offset: nat, bytes: seq<Cell>)
      requires Sane() && page < MAX_PAGES && offset + |bytes| <= PAGE_SIZE
      requires addr == page * PAGE_SIZE + offset && offset < PAGE_SIZE
      modifies this`dirty, this`curBuff, this`curPage, chip
      ensures Sane() && Written() == Over(old(Base()), addr, bytes) && Left(old(Keeping()), page, page)
    {
      if mode == BUFFERED {
        WriteBuffered(page, offset, bytes);
      } else {
        WriteThrough(page, offset, bytes);
      }
    }

    /** So many bytes of the data, from one page to another, have been written. */
    ghost predicate Underway(base: seq<Cell>, start: nat, data: seq<Cell>, index: nat, was: Kept, first: nat, last: nat)
      requires |base| == SIZE && start + |data| <= SIZE && index <= |data|
      reads this`dirty, this`curPage, this`curBuff, this`mode, chip
    {
      && Sane() && 0 < index && first <= last < MAX_PAGES && last * PAGE_SIZE < start + index <= (last + 1) * PAGE_SIZE
      && Written() == Laid(base, start, data, index) && Left(was, first, last)
    }

    /** The next page of a write. */
    method WriteNext(page: nat, offset: nat, data: seq<Cell>, index: nat, numBytes: nat,
                     ghost base: seq<Cell>, ghost start: nat, ghost was: Kept, ghost first: nat)
      requires |base| == SIZE && start + |data| <= SIZE
      requires index + numBytes <= |data| && 0 < numBytes <= PAGE_SIZE - offset
      requires Sane() && addr == start + index == page * PAGE_SIZE + offset && page < MAX_PAGES
      requires if index == 0 then Base() == base && Keeping() == was && page == first
        else offset == 0 < page && Underway(base, start, data, index, was, first, page - 1)
      modifies this`addr, this`dirty, this`curBuff, this`curPage, chip
      ensures addr == start + index + numBytes && Underway(base, start, data, index + numBytes, was, first, page)
    {
      ghost var before := Base();
      LaidNext(base, start, data, index, numBytes);
      assert Over(before, addr, Range(data, index, numBytes)) == Laid(base, start, data, index + numBytes);
      WriteChunk(page, offset, Range(data, index, numBytes));
      assert Left(was, first, page);
      addr := addr + numBytes;
    }

    /** Page after page, until the count is down to zero. */
    method WritePages(data: seq<Cell>) returns (count: nat, ghost last: nat)
      requires Sane() && addr + |data| <= SIZE && !Wraps(addr, |data|)
      modifies this`addr, this`dirty, this`curBuff, this`curPage, chip
      ensures addr == old(addr) + |data| && count == 0
      ensures data != [] ==> Underway(old(Base()), old(addr), data, |data|, old(Keeping()), old(addr) / PAGE_SIZE, last)
      ensures data == [] ==> unchanged(this) && unchanged(chip)
    {
      ghost var base, start, was, first := Base(), addr, Keeping(), addr / PAGE_SIZE;
      var page: nat, offset: nat, index: nat := addr / PAGE_SIZE, addr % PAGE_SIZE, 0;
      count, last := |data|, first;
      while count > 0
        invariant index + count == |data| && addr == start + index && Sane()
        invariant count > 0 ==>
          addr == page * PAGE_SIZE + offset && offset < PAGE_SIZE && (index > 0 ==> offset == 0 < page)
        invariant if index == 0 then unchanged(this) && unchanged(chip) && page == first
          else Underway(base, start, data, index, was, first, last) && page == last + 1
        decreases count
      {
        var numBytes := if count + offset > PAGE_SIZE then PAGE_SIZE - offset else count;
        WriteNext(page, offset, data, index, numBytes, base, start, was, first);
        last := page;
        index := index + numBytes;
        count := count - numBytes;
        page := page + 1;
        offset := 0;
      }
    }

    /** What a write goes on from, with the data laid over it. */
    method WriteFitting(data: seq<Cell>) returns (count: nat)
      requires Sane() && addr + |data| <= SIZE && data != [] && !Wraps(addr, |data|)
      modifies this`addr, this`dirty, this`curBuff, this`curPage, chip
      ensures Sane() && addr == old(addr) + |data| && count == 0
      ensures Written() == Over(old(Base()), old(addr), data)
      ensures Left(old(Keeping()), old(addr) / PAGE_SIZE, (addr - 1) / PAGE_SIZE)
    {
      ghost var last;
      count, last := WritePages(data);
      assert last == (addr - 1) / PAGE_SIZE;
    }

    /** All of the data goes to one page. */
    method WriteSpilling(data: seq<Cell>, spilled: seq<Cell>) returns (count: nat)
      requires Sane() && addr + |data| <= SIZE && data != [] && |spilled| == PAGE_SIZE
      modifies this`addr, this`dirty, this`curBuff, this`curPage, chip
      ensures Sane() && addr == old(addr) + |data| && count == 0
      ensures Written() == WithPage(old(Base()), old(addr) / PAGE_SIZE, spilled)
      ensures Left(old(Keeping()), old(addr) / PAGE_SIZE, old(addr) / PAGE_SIZE)
    {
      var page := addr / PAGE_SIZE;
      if mode == BUFFERED {
        WriteBuffered(page, 0, spilled);
      } else {
        WriteThrough(page, 0, spilled);
      }
      addr := addr + |data|;
      count := 0;
    }

    /** The count that is returned is zero. If the sum of the offset and the count wraps, all of the data is handed to
        the buffer of the first page; what that holds then is up to the chip. */
    method Write(data: seq<Cell>, spilled: seq<Cell>) returns (count: nat)
      requires Sane() && addr + |data| <= SIZE && |data| < 0x1_0000 && |spilled| == PAGE_SIZE
      modifies this`addr, this`dirty, this`curBuff, this`curPage, chip
      ensures Sane() && addr == old(addr) + |data| && count == 0
      ensures data == [] ==> Valid() == old(Valid()) && Flat() == old(Flat()) && Held() == old(Held())
      ensures data != [] ==>
        && Written() == Put(old(Base()), old(addr), data, spilled)
        && Left(old(Keeping()), old(addr) / PAGE_SIZE,
                (if Wraps(old(addr), |data|) then old(addr) else addr - 1) / PAGE_SIZE)
      ensures old(Valid()) ==> Valid()
      ensures old(Valid()) && data != [] ==> Flat() == Put(old(Flat()), old(addr), data, spilled)
    {
      if mode == BUFFERED && Valid() {
        HeldIsFlat();
      }
      if data == [] {
        return 0;
      }
      if Wraps(addr, |data|) {
        count := WriteSpilling(data, spilled);
      } else {
        count := WriteFitting(data);
      }
    }

    /** The checksum of a range, computed on the memory without a buffer. */
    method CrcOf(count: nat) returns (crc: Register)
      requires Sane() && addr + count <= SIZE
      modifies this`dirty, chip`memory
      ensures Sane() && Flat() == old(Flat()) && (old(Valid()) ==> Valid())
      ensures crc == Checksum(Bytes(Range(Flat(), addr, count)))
    {
      Uncover(count, addr % PAGE_SIZE + count);
      ghost var range := Range(Flat(), addr, count);
      assert Range(chip.memory, addr, count) == range;
      crc := chip.CrcMemory(addr, count);
      assert crc == Checksum(Bytes(range));
    }

    /** The comparison works in the default buffer: a page that is kept there is lost, unless it is the same as what is
        left there. If the sum of the offset and the count wraps, all of the data is handed to the buffer, and what that
        holds then is compared with the first page. */
    method Compare(data: seq<Cell>, spilled: seq<Cell>) returns (differs: bool)
      requires Sane() && addr + |data| <= SIZE && |data| < 0x1_0000 && |spilled| == PAGE_SIZE
      modifies this`addr, this`dirty, chip
      ensures Sane() && !dirty && Flat() == old(Flat()) == chip.memory && addr == old(addr) + |data|
      ensures differs <==>
        if Wraps(old(addr), |data|) then spilled != PageAt(Flat(), old(addr) / PAGE_SIZE)
        else data != Range(Flat(), old(addr), |data|)
      ensures KeepsDefault() && data != [] ==>
        Held() == WithPage(Flat(), curPage, LeftOver(Flat(), old(addr), data, spilled))
      ensures Valid() <==>
        if KeepsDefault() && data != [] then LeftOver(Flat(), old(addr), data, spilled) == PageAt(Flat(), curPage)
        else old(dirty || Valid())
      ensures !Wraps(old(addr), |data|) && KeepsDefault() && data != [] ==>
        && (!differs ==> (Valid() <==> PageAt(Flat(), (addr - 1) / PAGE_SIZE) == PageAt(Flat(), curPage)))
        && (old(addr) / PAGE_SIZE == (addr - 1) / PAGE_SIZE == curPage ==> (Valid() <==> !differs))
    {
      if Wraps(addr, |data|) {
        differs := CompareSpilling(data, spilled);
      } else {
        differs := CompareFitting(data);
      }
    }

    method CompareSpilling(data: seq<Cell>, spilled: seq<Cell>) returns (differs: bool)
      requires Sane() && addr + |data| <= SIZE && data != [] && |spilled| == PAGE_SIZE
      modifies this`addr, this`dirty, chip
      ensures Sane() && !dirty && Flat() == old(Flat()) == chip.memory && addr == old(addr) + |data|
      ensures differs <==> spilled != PageAt(Flat(), old(addr) / PAGE_SIZE)
      ensures KeepsDefault() ==> Held() == WithPage(Flat(), curPage, spilled)
      ensures Valid() <==> if KeepsDefault() then spilled == PageAt(Flat(), curPage) else old(dirty || Valid())
    {
      WriteBack();
      differs := HandOver(addr / PAGE_SIZE, spilled);
      addr := addr + |data|;
    }

    method HandOver(page: nat, spilled: seq<Cell>) returns (differs: bool)
      requires chip.Valid() && page < MAX_PAGES && |spilled| == PAGE_SIZE
      modifies chip`buffer1, chip`buffer2
      ensures chip.Valid() && chip.Buffer(Buffer2) == old(chip.Buffer(Buffer2))
      ensures chip.Buffer(DEFAULT_BUFFER) == spilled
      ensures differs <==> spilled != PageAt(chip.memory, page)
    {
      chip.WriteBuffer(DEFAULT_BUFFER, 0, spilled);
      differs := chip.CompareBuffer(DEFAULT_BUFFER, page);
    }

    method CompareFitting(data: seq<Cell>) returns (differs: bool)
      requires Sane() && addr + |data| <= SIZE && !Wraps(addr, |data|)
      modifies this`addr, this`dirty, chip
      ensures Sane() && !dirty && Flat() == old(Flat()) == chip.memory && addr == old(addr) + |data|
      ensures differs <==> data != Range(Flat(), old(addr), |data|)
      ensures KeepsDefault() && data != [] ==>
        Held() ==
          WithPage(Flat(), curPage, PageAt(Over(Flat(), old(addr), data), LastCompared(Flat(), old(addr), data)))
      ensures Valid() <==>
        if KeepsDefault() && data != [] then Survives(Flat(), old(addr), data, curPage) else old(dirty || Valid())
      ensures KeepsDefault() && data != [] && !differs ==>
        (Valid() <==> PageAt(Flat(), (addr - 1) / PAGE_SIZE) == PageAt(Flat(), curPage))
      ensures KeepsDefault() && data != [] && old(addr) / PAGE_SIZE == (addr - 1) / PAGE_SIZE == curPage ==>
        (Valid() <==> !differs)
    {
      WriteBack();
      differs := CompareClean(data);
      EqualSlices(chip.memory, old(addr), data);
      if KeepsDefault() && data != [] {
        ghost var survives, flat := Survives(chip.memory, old(addr), data, curPage), Flat();
        assert Valid() <==> survives;
        SurvivesExactly(flat, old(addr), data, curPage);
      }
    }

    method CompareClean(data: seq<Cell>) returns (differs: bool)
      requires Sane() && !dirty && addr + |data| <= SIZE && !Wraps(addr, |data|)
      modifies this`addr, chip`buffer1, chip`buffer2
      ensures Sane() && addr == old(addr) + |data|
      ensures differs <==> !Equal(chip.memory, old(addr), data, |data|)
      ensures KeepsDefault() && data != [] ==>
        chip.Buffer(curBuff) == PageAt(Over(chip.memory, old(addr), data), LastCompared(chip.memory, old(addr), data))
      ensures Valid() <==>
        if KeepsDefault() && data != [] then Survives(chip.memory, old(addr), data, curPage) else old(Valid())
    {
      differs := CompareRange(data);
    }

    /** So many bytes have been compared and were equal, and the default buffer holds the page compared last. */
    ghost predicate Compared(start: nat, data: seq<Cell>, index: nat, last: nat)
      requires chip.Valid() && start + |data| <= SIZE && index <= |data|
      reads chip
    {
      && Equal(chip.memory, start, data, index)
      && (index > 0 ==>
            && last < MAX_PAGES && last * PAGE_SIZE < start + index <= (last + 1) * PAGE_SIZE
            && chip.Buffer(DEFAULT_BUFFER) == PageAt(Over(chip.memory, start, data), last))
    }

    /** A difference has been found, and the default buffer holds its page. */
    ghost predicate Different(start: nat, data: seq<Cell>, last: nat)
      requires chip.Valid() && start + |data| <= SIZE
      reads chip
    {
      && data != [] && !Equal(chip.memory, start, data, |data|)
      && last == LastCompared(chip.memory, start, data)
      && chip.Buffer(DEFAULT_BUFFER) == PageAt(Over(chip.memory, start, data), last)
    }

    /** The next page of a comparison. */
    method CompareNext(page: nat, offset: nat, data: seq<Cell>, index: nat, numBytes: nat, ghost start: nat)
      returns (differs: bool)
      requires chip.Valid() && start + |data| <= SIZE
      requires index + numBytes <= |data| && 0 < numBytes && offset + numBytes <= PAGE_SIZE
      requires start + index == page * PAGE_SIZE + offset && page < MAX_PAGES && Equal(chip.memory, start, data, index)
      requires (index == 0 || offset == 0) && (index + numBytes == |data| || offset + numBytes == PAGE_SIZE)
      modifies chip`buffer1, chip`buffer2
      ensures chip.Valid() && chip.Buffer(Buffer2) == old(chip.Buffer(Buffer2))
      ensures if differs then Different(start, data, page) else Compared(start, data, index + numBytes, page)
    {
      differs := CompareChunk(page, offset, Range(data, index, numBytes));
      ChunkCompared(chip.memory, start, data, index, numBytes, page, offset);
      ChunkOfPage(chip.memory, start, data, index, numBytes, page, offset);
    }

    /** Page after page, until one differs or the count is down to zero. */
    method ComparePages(data: seq<Cell>) returns (differs: bool, ghost last: nat)
      requires chip.Valid() && addr + |data| <= SIZE && !Wraps(addr, |data|)
      modifies this`addr, chip`buffer1, chip`buffer2
      ensures chip.Valid() && addr == old(addr) + |data| && chip.Buffer(Buffer2) == old(chip.Buffer(Buffer2))
      ensures if differs then Different(old(addr), data, last) else Compared(old(addr), data, |data|, last)
      ensures data == [] ==> unchanged(chip)
    {
      ghost var start := addr;
      var index, count: nat := 0, |data|;
      differs, last := false, 0;
      while count > 0
        invariant chip.Valid() && chip.Buffer(Buffer2) == old(chip.Buffer(Buffer2))
        invariant 0 <= index && index + count == |data| && addr == start + index && !differs
        invariant count == 0 || index == 0 || addr % PAGE_SIZE == 0
        invariant Compared(start, data, index, last)
        invariant index == 0 ==> unchanged(chip)
        decreases count
      {
        var page, offset := addr / PAGE_SIZE, addr % PAGE_SIZE;
        var numBytes := if count + offset > PAGE_SIZE then PAGE_SIZE - offset else count;
        differs := CompareNext(page, offset, data, index, numBytes, start);
        last := page;
        if differs {
          break;
        }
        index := index + numBytes;
        addr := addr + numBytes;
        count := count - numBytes;
      }
      addr := addr + count;
    }

    method CompareRange(data: seq<Cell>) returns (differs: bool)
      requires chip.Valid() && addr + |data| <= SIZE && !Wraps(addr, |data|)
      modifies this`addr, chip`buffer1, chip`buffer2
      ensures chip.Valid() && addr == old(addr) + |data| && chip.Buffer(Buffer2) == old(chip.Buffer(Buffer2))
      ensures differs <==> !Equal(chip.memory, old(addr), data, |data|)
      ensures chip.Buffer(DEFAULT_BUFFER) == if data == [] then old(chip.Buffer(DEFAULT_BUFFER))
        else PageAt(Over(chip.memory, old(addr), data), LastCompared(chip.memory, old(addr), data))
    {
      ghost var last;
      differs, last := ComparePages(data);
      if !differs && data != [] {
        AllEqual(chip.memory, old(addr), data, last);
      }
    }

    /** A clean page is kept in the default buffer. */
    ghost predicate KeepsDefault()
      reads this
    {
      mode == BUFFERED && curPage < MAX_PAGES && curBuff == DEFAULT_BUFFER
    }

    /** The part of a comparison that falls on one page. */
    method CompareChunk(page: nat, offset: nat, bytes: seq<Cell>) returns (differs: bool)
      requires chip.Valid() && page < MAX_PAGES && offset + |bytes| <= PAGE_SIZE
      modifies chip`buffer1, chip`buffer2
      ensures chip.Valid() && chip.Buffer(Buffer2) == old(chip.Buffer(Buffer2))
      ensures differs <==> !Equal(chip.memory, page * PAGE_SIZE + offset, bytes, |bytes|)
      ensures chip.Buffer(DEFAULT_BUFFER) == Over(PageAt(chip.memory, page), offset, bytes)
    {
      ghost var held := PageAt(chip.memory, page);
      if |bytes| < PAGE_SIZE {
        chip.FillBuffer(DEFAULT_BUFFER, page);
      }
      ghost var before := chip.Buffer(DEFAULT_BUFFER);
      chip.WriteBuffer(DEFAULT_BUFFER, offset, bytes);
      differs := chip.CompareBuffer(DEFAULT_BUFFER, page);
      assert |bytes| == PAGE_SIZE ==> Over(before, offset, bytes) == Over(held, offset, bytes);
      SameUnderneath(held, offset, bytes);
      OnPage(chip.memory, page, offset, bytes);
    }
  }

  /** The place of the first difference from n on, or the length. */
  ghost function Difference(s: seq<Cell>, at: nat, data: seq<Cell>, n: nat): (d: nat)
    requires n <= |data| && at + |data| <= |s|
    ensures n <= d <= |data| && forall i :: n <= i < d ==> data[i] == s[at + i]
    ensures d < |data| ==> data[d] != s[at + d]
    decreases |data| - n
  {
    if n == |data| || data[n] != s[at + n] then n else Difference(s, at, data, n + 1)
  }

  /** The page of the first difference, or the last page of the range. */
  ghost function LastCompared(s: seq<Cell>, at: nat, data: seq<Cell>): (page: nat)
    requires |s| == SIZE && at + |data| <= SIZE && data != []
    ensures page < MAX_PAGES
  {
    var d := Difference(s, at, data, 0);
    (at + if d < |data| then d else |data| - 1) / PAGE_SIZE
  }

  /** What a comparison leaves in its buffer. */
  ghost function LeftOver(s: seq<Cell>, at: nat, data: seq<Cell>, spilled: seq<Cell>): (r: seq<Cell>)
    requires |s| == SIZE && at + |data| <= SIZE && data != [] && |spilled| == PAGE_SIZE
    ensures |r| == PAGE_SIZE
  {
    if Wraps(at, |data|) then spilled else PageAt(Over(s, at, data), LastCompared(s, at, data))
  }

  lemma EqualSlices(s: seq<Cell>, at: nat, data: seq<Cell>)
    requires at + |data| <= |s|
    ensures Equal(s, at, data, |data|) <==> data == Range(s, at, |data|)
  {
    var slice := Range(s, at, |data|);
    assert forall i :: 0 <= i < |data| ==> slice[i] == s[at + i];
  }

  lemma AllEqual(s: seq<Cell>, at: nat, data: seq<Cell>, last: nat)
    requires |s| == SIZE && at + |data| <= SIZE && data != [] && Equal(s, at, data, |data|)
    requires last * PAGE_SIZE < at + |data| <= (last + 1) * PAGE_SIZE
    ensures LastCompared(s, at, data) == last
  {
  }

  /** The chunk of some data that falls on a page, seen on the page and on the whole. */
  lemma ChunkOfPage(s: seq<Cell>, start: nat, data: seq<Cell>, i: nat, n: nat, page: nat, offset: nat)
    requires |s| == SIZE && start + |data| <= SIZE && i + n <= |data| && page < MAX_PAGES && offset + n <= PAGE_SIZE
    requires start + i == page * PAGE_SIZE + offset
    requires (i == 0 || offset == 0) && (i + n == |data| || offset + n == PAGE_SIZE)
    ensures PageAt(Over(s, start, data), page) == Over(PageAt(s, page), offset, Range(data, i, n))
  {
  }

  /** A chunk that is the page's own, after others that were, too, or one that is not. */
  lemma ChunkCompared(s: seq<Cell>, start: nat, data: seq<Cell>, i: nat, n: nat, page: nat, offset: nat)
    requires |s| == SIZE && start + |data| <= SIZE && i + n <= |data| && page < MAX_PAGES
    requires 0 < n && offset + n <= PAGE_SIZE
    requires start + i == page * PAGE_SIZE + offset
    requires Equal(s, start, data, i)
    ensures if Equal(s, start + i, Range(data, i, n), n)
      then Equal(s, start, data, i + n)
      else !Equal(s, start, data, |data|) && LastCompared(s, start, data) == page
  {
    var chunk := Range(data, i, n);
    assert forall k :: 0 <= k < n ==> chunk[k] == data[i + k];
    if Equal(s, start + i, chunk, n) {
      forall k | i <= k < i + n
        ensures data[k] == s[start + k]
      {
        assert chunk[k - i] == s[start + i + (k - i)];
      }
    } else {
      var k :| 0 <= k < n && chunk[k] != s[start + i + k];
      var d := Difference(s, start, data, 0);
      assert data[i + k] != s[start + (i + k)];
      assert i <= d <= i + k;
    }
  }

  /** The page compared last, with the data laid over it, is this page. */
  ghost predicate Survives(s: seq<Cell>, at: nat, data: seq<Cell>, page: nat)
    requires |s| == SIZE && at + |data| <= SIZE && data != [] && page < MAX_PAGES
  {
    PageAt(Over(s, at, data), LastCompared(s, at, data)) == PageAt(s, page)
  }

  lemma SurvivesExactly(s: seq<Cell>, at: nat, data: seq<Cell>, page: nat)
    requires |s| == SIZE && at + |data| <= SIZE && data != [] && page < MAX_PAGES
    ensures Equal(s, at, data, |data|) ==>
      (Survives(s, at, data, page) <==> PageAt(s, (at + |data| - 1) / PAGE_SIZE) == PageAt(s, page))
    ensures at / PAGE_SIZE == (at + |data| - 1) / PAGE_SIZE == page ==>
      (Survives(s, at, data, page) <==> Equal(s, at, data, |data|))
  {
    LaidOver(s, at, data);
  }

  /** Equal data changes nothing, and on a single page nothing else does. */
  lemma LaidOver(s: seq<Cell>, at: nat, data: seq<Cell>)
    requires |s| == SIZE && at + |data| <= SIZE && data != []
    ensures Equal(s, at, data, |data|) ==>
      Over(s, at, data) == s && LastCompared(s, at, data) == (at + |data| - 1) / PAGE_SIZE
    ensures var page := at / PAGE_SIZE; page == (at + |data| - 1) / PAGE_SIZE ==>
      && LastCompared(s, at, data) == page
      && (PageAt(Over(s, at, data), page) == PageAt(s, page) <==> Equal(s, at, data, |data|))
  {
    var page, offset := at / PAGE_SIZE, at % PAGE_SIZE;
    if page == (at + |data| - 1) / PAGE_SIZE {
      ChunkOfPage(s, at, data, 0, |data|, page, offset);
      assert Range(data, 0, |data|) == data;
      SameUnderneath(PageAt(s, page), offset, data);
      OnPage(s, page, offset, data);
    }
  }

  /** Laying bytes over a page leaves it as it was exactly if they are its own. */
  lemma SameUnderneath(page: seq<Cell>, offset: nat, bytes: seq<Cell>)
    requires offset + |bytes| <= |page|
    ensures Over(page, offset, bytes) == page <==> Equal(page, offset, bytes, |bytes|)
  {
    if Over(page, offset, bytes) == page {
      forall i | 0 <= i < |bytes|
        ensures bytes[i] == page[offset + i]
      {
        assert Over(page, offset, bytes)[offset + i] == bytes[i];
      }
    }
  }

  lemma OnPage(s: seq<Cell>, page: nat, offset: nat, bytes: seq<Cell>)
    requires |s| == SIZE && page < MAX_PAGES && offset + |bytes| <= PAGE_SIZE
    ensures Equal(PageAt(s, page), offset, bytes, |bytes|) <==> Equal(s, page * PAGE_SIZE + offset, bytes, |bytes|)
  {
    var held := PageAt(s, page);
    forall i | 0 <= i < |bytes|
      ensures bytes[i] == held[offset + i] <==> bytes[i] == s[page * PAGE_SIZE + offset + i]
    {
    }
  }

  /** What lies under a page does not matter. */
  lemma Beneath(flat: seq<Cell>, under: seq<Cell>, page: nat)
    requires |flat| == SIZE && |under| == SIZE && page < MAX_PAGES
    requires exists held :: |held| == PAGE_SIZE && under == WithPage(flat, page, held)
    ensures WithPage(under, page, PageAt(flat, page)) == flat
  {
    var held :| |held| == PAGE_SIZE && under == WithPage(flat, page, held);
    PageTwice(flat, page, held, PageAt(flat, page));
    PageKept(flat, page);
  }

  /** A page overwritten in part, over what it held, or whole. */
  lemma WrittenPage(flat: seq<Cell>, under: seq<Cell>, page: nat, held: seq<Cell>, before: seq<Cell>, offset: nat,
                    bytes: seq<Cell>)
    requires |flat| == SIZE && |under| == SIZE && page < MAX_PAGES && |held| == PAGE_SIZE && |before| == PAGE_SIZE
    requires offset + |bytes| <= PAGE_SIZE && WithPage(under, page, held) == flat
    requires |bytes| < PAGE_SIZE ==> before == held
    ensures WithPage(under, page, Over(before, offset, bytes)) == Over(flat, page * PAGE_SIZE + offset, bytes)
  {
    if |bytes| == PAGE_SIZE {
      assert Over(before, offset, bytes) == Over(held, offset, bytes);
    }
    OverInside(under, page, held, offset, bytes);
  }

  /** A range that does not reach a page does not see it. */
  lemma OutsideOfPage(s: seq<Cell>, page: nat, bytes: seq<Cell>, at: nat, count: nat)
    requires |s| == SIZE && |bytes| == PAGE_SIZE && at + count <= SIZE && page <= MAX_PAGES
    ensures var first := at / PAGE_SIZE;
      page < MAX_PAGES && !(first <= page <= first + (at % PAGE_SIZE + count) / PAGE_SIZE) ==>
      Range(WithPage(s, page, bytes), at, count) == Range(s, at, count)
  {
  }

  /** Data is written as it should be exactly if the sum does not wrap, or if the first page comes to hold the right
      bytes all the same and the others held them before. */
  lemma PutExactly(s: seq<Cell>, at: nat, data: seq<Cell>, spilled: seq<Cell>)
    requires |s| == SIZE && at + |data| <= SIZE && data != [] && |spilled| == PAGE_SIZE
    ensures Put(s, at, data, spilled) == Over(s, at, data) <==>
      !Wraps(at, |data|) || HeldAlready(s, at / PAGE_SIZE * PAGE_SIZE, spilled, at, data)
  {
    if Wraps(at, |data|) {
      OverInstead(s, at / PAGE_SIZE * PAGE_SIZE, spilled, at, data);
    }
  }

  /** The bytes from first on are those of the data where they overlap it, and the rest of the data is there already. */
  ghost predicate HeldAlready(s: seq<Cell>, first: nat, bytes: seq<Cell>, at: nat, data: seq<Cell>)
    requires first <= at < first + |bytes| <= at + |data| <= |s|
  {
    var n := first + |bytes| - at;
    bytes == Range(Over(s, at, data), first, |bytes|) && Equal(s, at + n, data[n..], |data| - n)
  }

  /** Bytes laid over are the data laid over, which starts among them and ends behind them. */
  lemma OverInstead(s: seq<Cell>, first: nat, bytes: seq<Cell>, at: nat, data: seq<Cell>)
    requires first <= at < first + |bytes| <= at + |data| <= |s|
    ensures Over(s, first, bytes) == Over(s, at, data) <==> HeldAlready(s, first, bytes, at, data)
  {
    var n := first + |bytes| - at;
    var put, whole, tail := Over(s, first, bytes), Over(s, at, data), data[n..];
    if put == whole {
      assert forall i :: 0 <= i < |bytes| ==> bytes[i] == put[first + i];
      assert forall i :: 0 <= i < |tail| ==> tail[i] == whole[at + n + i];
    }
    if bytes == Range(whole, first, |bytes|) && Equal(s, at + n, tail, |tail|) {
      forall k | 0 <= k < |s|
        ensures put[k] == whole[k]
      {
        if first <= k < first + |bytes| {
          assert bytes[k - first] == whole[first + (k - first)];
        } else if at + n <= k < at + |data| {
          assert tail[k - at - n] == s[at + n + (k - at - n)];
        }
      }
    }
  }

  // Runs in which a byte is lost.

  lemma OverOne(s: seq<Cell>, at: nat, x: Cell)
    requires at < |s|
    ensures Over(s, at, [x]) == s[at := x]
  {
  }

  /** A byte is written. */
  method Poke(driver: Driver, at: nat, x: Cell)
    requires driver.Sane() && at < SIZE
    modifies driver`addr, driver`dirty, driver`curBuff, driver`curPage, driver.chip
    ensures driver.Sane()
    ensures driver.mode == BUFFERED ==>
      && driver.Valid() && driver.dirty && driver.curPage == at / PAGE_SIZE
      && var same := driver.curPage == old(driver.curPage);
      && driver.curBuff == (if same then old(driver.curBuff) else Other(old(driver.curBuff)))
      && driver.Flat() == (if same then old(driver.Held()) else old(driver.Flat()))[at := x]
    ensures driver.mode == BUFFERED && at / PAGE_SIZE == old(driver.curPage) ==>
      driver.chip.memory == old(driver.chip.memory)
    ensures driver.mode != BUFFERED ==> driver.Keeping() == old(driver.Keeping()).(memory := driver.chip.memory)
  {
    driver.Seek(at);
    OverOne(driver.Base(), at, x);
    var count := driver.Write([x], seq(PAGE_SIZE, _ => x));
  }

  /** A byte is read. */
  method Peek(driver: Driver, at: nat) returns (data: seq<Cell>)
    requires driver.Sane() && at < SIZE
    modifies driver`addr, driver`dirty, driver.chip`memory
    ensures driver.Sane() && driver.Flat() == old(driver.Flat()) && data == [driver.Flat()[at]]
  {
    driver.Seek(at);
    data := driver.Read(1);
  }

  /** A byte is compared while a page is kept in the default buffer. */
  method CompareOne(driver: Driver, at: nat, z: Cell)
    requires driver.Sane() && at < SIZE && driver.KeepsDefault()
    modifies driver`addr, driver`dirty, driver.chip
    ensures driver.Sane() && !driver.dirty && driver.Flat() == old(driver.Flat())
    ensures driver.Held() == WithPage(driver.Flat(), driver.curPage, PageAt(driver.Flat()[at := z], at / PAGE_SIZE))
  {
    driver.Seek(at);
    LaidOver(driver.Flat(), at, [z]);
    OverOne(driver.Flat(), at, z);
    var differs := driver.Compare([z], seq(PAGE_SIZE, _ => z));
  }

  method Buffering(chip: Chip) returns (driver: Driver)
    requires chip.Valid()
    modifies chip`memory
    ensures fresh(driver) && driver.chip == chip && driver.Valid() && driver.mode == BUFFERED
    ensures driver.curBuff == Buffer1 && driver.curPage == MAX_PAGES
  {
    driver := new Driver(chip);
    var status := driver.SetMode(BUFFERED);
  }

  /** The byte x at the start of page 1 is read, page 0 is compared with z, a byte is written next to x, and what is
      read then is z. */
  method ComparisonLosesByte(chip: Chip, x: Cell, z: Cell) returns (before: seq<Cell>, after: seq<Cell>)
    requires chip.Valid()
    modifies chip
    ensures before == [x] && after == [z]
  {
    var driver := Buffering(chip);
    Poke(driver, 0, x);
    Poke(driver, PAGE_SIZE, x);
    before := Peek(driver, PAGE_SIZE);
    CompareOne(driver, 0, z);
    assert driver.Held()[PAGE_SIZE] == z;
    Poke(driver, PAGE_SIZE + 1, x);
    after := Peek(driver, PAGE_SIZE);
  }

  /** The byte x is written and still in the buffer, the mode is set to one there is not, y is written over x, and what
      is read then is x. */
  method UnknownModeLosesByte(chip: Chip, x: Cell, y: Cell, unknown: nat) returns (after: seq<Cell>)
    requires chip.Valid() && unknown != BUFFERED && unknown != UNBUFFERED
    modifies chip
    ensures after == [x]
  {
    var driver := Buffering(chip);
    Poke(driver, 0, x);
    assert driver.chip.Buffer(Other(DEFAULT_BUFFER))[0] == driver.Flat()[0];
    var status := driver.SetMode(unknown);
    Poke(driver, 0, y);
    assert driver.chip.Buffer(Other(DEFAULT_BUFFER))[0] == driver.Flat()[0];
    after := Peek(driver, 0);
  }

  /** The byte x is written and flushed, then y is written over it and is still in the buffer; a read long enough for
      its end to wrap in 16 bits gives x. */
  method LongReadMissesByte(chip: Chip, x: Cell, y: Cell) returns (data: seq<Cell>)
    requires chip.Valid()
    modifies chip
    ensures |data| == 65400 && data[100 * PAGE_SIZE - 263] == x
  {
    var driver := Buffering(chip);
    Poke(driver, 100 * PAGE_SIZE, x);
    driver.WriteBack();
    Poke(driver, 100 * PAGE_SIZE, y);
    driver.Seek(263);
    data := driver.Read(65400);
  }

  /** The byte x is written, and a write that goes over it, long enough for its end to wrap in 16 bits, leaves it. */
  method LongWriteLeavesByte(chip: Chip, x: Cell, y: Cell, spilled: seq<Cell>) returns (after: seq<Cell>)
    requires chip.Valid() && |spilled| == PAGE_SIZE
    modifies chip
    ensures after == [x]
  {
    var driver := Buffering(chip);
    Poke(driver, PAGE_SIZE, x);
    driver.Seek(263);
    var count := driver.Write(seq(65400, _ => y), spilled);
    after := Peek(driver, PAGE_SIZE);
  }
}

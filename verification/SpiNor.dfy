/** Writing to a NOR flash page by page. */
module SpiNor {
  import opened Lines

  const ERASED: bv8 := 0xFF

  /** Where the chip's address counter goes after cell a of the page from start
      on: to the next cell, but from the page's last cell back to its first. */
  function Next(a: nat, start: nat, page: nat): nat {
    if a + 1 == start + page then start else a + 1
  }

  /** Where it is after k steps from a. */
  function Slot(a: nat, k: nat, start: nat, page: nat): (s: nat)
    requires start <= a < start + page
    ensures start <= s < start + page
  {
    if k == 0 then a else Next(Slot(a, k - 1, start, page), start, page)
  }

  /** One cell programmed: that can only clear bits. */
  ghost function Burned(cells: seq<bv8>, s: nat, byte: bv8): (r: seq<bv8>)
    requires s < |cells|
    ensures |r| == |cells|
  {
    cells[s := cells[s] & byte]
  }

  /** What the chip leaves after k bytes of a program command. */
  ghost function Sent(cells: seq<bv8>, start: nat, page: nat, a: nat, data: seq<bv8>, k: nat): (r: seq<bv8>)
    requires k <= |data| && (k == 0 || start <= a < start + page <= |cells|)
    ensures |r| == |cells|
  {
    if k == 0 then cells
    else Burned(Sent(cells, start, page, a, data, k - 1), Slot(a, k - 1, start, page), data[k - 1])
  }

  ghost function Programmed(cells: seq<bv8>, page: nat, a: nat, data: seq<bv8>): (r: seq<bv8>)
    requires page > 0 && (data == [] || Base(a, page) + page <= |cells|)
    ensures |r| == |cells|
  {
    Sent(cells, Base(a, page), page, a, data, |data|)
  }

  /** The flat write: each byte of data is cleared into its own cell from a on. */
  ghost function Anded(cells: seq<bv8>, a: nat, data: seq<bv8>): (r: seq<bv8>)
    requires a + |data| <= |cells|
    ensures |r| == |cells|
  {
    seq<bv8>(|cells|, j requires 0 <= j < |cells| =>
      if a <= j < a + |data| then cells[j] & data[j - a] else cells[j])
  }

  lemma AndedNext(cells: seq<bv8>, a: nat, data: seq<bv8>, k: nat)
    requires k < |data| && a + |data| <= |cells|
    ensures var before := Anded(cells, a, data[..k]);
      Anded(cells, a, data[..k + 1]) == Burned(before, a + k, data[k])
  {
  }

  lemma NothingAnded(cells: seq<bv8>, a: nat)
    requires a <= |cells|
    ensures Anded(cells, a, []) == cells
  {
  }

  /** Two flat writes of adjoining pieces are one. */
  lemma AndedJoin(cells: seq<bv8>, a: nat, first: seq<bv8>, second: seq<bv8>)
    requires a + |first| + |second| <= |cells|
    ensures Anded(Anded(cells, a, first), a + |first|, second) == Anded(cells, a, first + second)
  {
  }

  lemma {:induction false} SlotInPage(a: nat, k: nat, start: nat, page: nat)
    requires start <= a && a + k < start + page
    ensures Slot(a, k, start, page) == a + k
  {
    if k > 0 {
      SlotInPage(a, k - 1, start, page);
    }
  }

  lemma {:induction false} SentInPage(cells: seq<bv8>, start: nat, page: nat, a: nat, data: seq<bv8>, k: nat)
    requires k <= |data| && a + |data| <= |cells| && a + k <= start + page
    requires k == 0 || start <= a < start + page <= |cells|
    ensures Sent(cells, start, page, a, data, k) == Anded(cells, a, data[..k])
  {
    if k == 0 {
      NothingAnded(cells, a);
    } else {
      SentInPage(cells, start, page, a, data, k - 1);
      SlotInPage(a, k - 1, start, page);
      AndedNext(cells, a, data, k - 1);
    }
  }

  /** Within one page the program command is a flat write. */
  lemma InPageFlat(cells: seq<bv8>, page: nat, a: nat, data: seq<bv8>)
    requires page > 0 && (data == [] || Base(a, page) + page <= |cells|)
    requires a + |data| <= Base(a, page) + page && a + |data| <= |cells|
    ensures Programmed(cells, page, a, data) == Anded(cells, a, data)
  {
    SentInPage(cells, Base(a, page), page, a, data, |data|);
    assert data[..|data|] == data;
  }

  lemma {:induction false} SlotWraps(a: nat, i: nat, start: nat, page: nat, room: nat)
    requires start <= a < start + page && room == start + page - a
    ensures Slot(a, room + i, start, page) == Slot(start, i, start, page)
  {
    if i > 0 {
      SlotWraps(a, i - 1, start, page, room);
    } else {
      SlotInPage(a, room - 1, start, page);
    }
  }

  lemma SentNext(cells: seq<bv8>, start: nat, page: nat, a: nat, data: seq<bv8>, k: nat,
                 before: seq<bv8>, s: nat, byte: bv8)
    requires start <= a < start + page <= |cells| && k < |data|
    requires before == Sent(cells, start, page, a, data, k) && s == Slot(a, k, start, page) && byte == data[k]
    ensures Sent(cells, start, page, a, data, k + 1) == Burned(before, s, byte)
  {
  }

  lemma {:induction false} SentOn(cells: seq<bv8>, mid: seq<bv8>, start: nat, page: nat, a: nat,
                                  data: seq<bv8>, rest: seq<bv8>, room: nat, i: nat)
    requires start <= a < start + page <= |cells| && room == start + page - a
    requires room + i <= |data| && rest == data[room..] && mid == Sent(cells, start, page, a, data, room)
    ensures Sent(cells, start, page, a, data, room + i) == Sent(mid, start, page, start, rest, i)
  {
    if i > 0 {
      SentOn(cells, mid, start, page, a, data, rest, room, i - 1);
      SlotWraps(a, i - 1, start, page, room);
      var k, byte := room + (i - 1), rest[i - 1];
      var before, s := Sent(mid, start, page, start, rest, i - 1), Slot(start, i - 1, start, page);
      assert byte == data[k];
      SentNext(cells, start, page, a, data, k, before, s, byte);
      SentNext(mid, start, page, start, rest, i - 1, before, s, byte);
    }
  }

  lemma {:induction false} SentPrefix(cells: seq<bv8>, start: nat, page: nat, a: nat,
                                      data: seq<bv8>, head: seq<bv8>, k: nat)
    requires start <= a < start + page <= |cells| && k <= |head| <= |data| && head == data[..|head|]
    ensures Sent(cells, start, page, a, data, k) == Sent(cells, start, page, a, head, k)
  {
    if k > 0 {
      SentPrefix(cells, start, page, a, data, head, k - 1);
    }
  }

  /** Across a page boundary it is not: the bytes that come after the page's last
      cell are programmed from the page's start on. */
  lemma AcrossPagesWraps(cells: seq<bv8>, page: nat, a: nat, data: seq<bv8>, room: nat)
    requires page > 0 && Base(a, page) + page <= |cells| && room == Base(a, page) + page - a < |data|
    ensures Base(Base(a, page), page) == Base(a, page)
    ensures Programmed(cells, page, a, data)
         == Programmed(Anded(cells, a, data[..room]), page, Base(a, page), data[room..])
  {
    var start, head, rest := Base(a, page), data[..room], data[room..];
    BaseAligned(a, page);
    SentPrefix(cells, start, page, a, data, head, room);
    InPageFlat(cells, page, a, head);
    SentOn(cells, Anded(cells, a, head), start, page, a, data, rest, room, |rest|);
  }

  /** No cell outside the page is touched. */
  lemma {:induction false} SentElsewhere(cells: seq<bv8>, start: nat, page: nat, a: nat,
                                         data: seq<bv8>, k: nat, j: nat)
    requires start <= a < start + page <= |cells| && k <= |data| && j < |cells|
    requires !(start <= j < start + page)
    ensures Sent(cells, start, page, a, data, k)[j] == cells[j]
  {
    if k > 0 {
      SentElsewhere(cells, start, page, a, data, k - 1, j);
    }
  }

  /** On erased cells one program command does for all data of a length what a
      flat write does exactly when it ends inside the page. */
  lemma FlatExactly(cells: seq<bv8>, page: nat, a: nat, n: nat)
    requires page > 0 && Aligned(|cells|, page) && a + n <= |cells|
    requires forall j :: 0 <= j < |cells| ==> cells[j] == ERASED
    ensures n > 0 ==> Base(a, page) + page <= |cells|
    ensures (forall data: seq<bv8> :: |data| == n ==> Programmed(cells, page, a, data) == Anded(cells, a, data))
       <==> a + n <= Base(a, page) + page
  {
    if n > 0 {
      WholePage(a, |cells|, page);
    }
    if a + n <= Base(a, page) + page {
      forall data: seq<bv8> | |data| == n
        ensures Programmed(cells, page, a, data) == Anded(cells, a, data)
      {
        InPageFlat(cells, page, a, data);
      }
    } else {
      PastDiffers(cells, page, a, seq<bv8>(n, _ => 0), Base(a, page) + page);
    }
  }

  lemma PastDiffers(cells: seq<bv8>, page: nat, a: nat, data: seq<bv8>, past: nat)
    requires page > 0 && past == Base(a, page) + page < a + |data| <= |cells|
    requires cells[past] == ERASED && data[past - a] == 0
    ensures Programmed(cells, page, a, data) != Anded(cells, a, data)
  {
    SentElsewhere(cells, Base(a, page), page, a, data, |data|, past);
    assert ERASED & 0 == 0;
    assert Anded(cells, a, data)[past] == 0;
  }

  /** Programming only ever clears bits. */
  lemma {:induction false} OnlyClears(cells: seq<bv8>, start: nat, page: nat, a: nat, data: seq<bv8>, k: nat, j: nat)
    requires k <= |data| && (k == 0 || start <= a < start + page <= |cells|) && j < |cells|
    ensures Sent(cells, start, page, a, data, k)[j] & !cells[j] == 0
    decreases k
  {
    if k == 0 {
      NoneOutside(cells[j]);
    } else {
      OnlyClears(cells, start, page, a, data, k - 1, j);
      var before := Sent(cells, start, page, a, data, k - 1);
      StillCleared(before[j], data[k - 1], cells[j]);
    }
  }

  lemma NoneOutside(c: bv8)
    ensures c & !c == 0
  {
  }

  lemma StillCleared(b: bv8, d: bv8, c: bv8)
    requires b & !c == 0
    ensures b & d & !c == 0
  {
  }

  /** On erased cells a flat write reads back as the data, and touches nothing else. */
  lemma ErasedReadsBack(cells: seq<bv8>, a: nat, data: seq<bv8>)
    requires a + |data| <= |cells|
    requires forall j :: a <= j < a + |data| ==> cells[j] == ERASED
    ensures Anded(cells, a, data) == cells[..a] + data + cells[a + |data|..]
  {
    var l, r := Anded(cells, a, data), cells[..a] + data + cells[a + |data|..];
    forall j | 0 <= j < |cells|
      ensures l[j] == r[j]
    {
      if a <= j < a + |data| {
        assert cells[j] == ERASED && ERASED & data[j - a] == data[j - a];
      }
    }
  }

  /** A call of the bus's program command. */
  datatype Call = Call(addr: nat, data: seq<bv8>)

  /** The calls stay inside their pages, follow one another from a on, and carry
      the first k bytes of buf. */
  ghost predicate Chunks(calls: seq<Call>, page: nat, a: nat, buf: seq<bv8>, k: nat)
    requires page > 0 && k <= |buf|
    decreases |calls|
  {
    if calls == [] then k == 0
    else
      var c := calls[|calls| - 1];
      var n := |c.data|;
      && n <= k && c.data == buf[k - n..k] && c.addr == a + k - n
      && c.addr + n <= Base(c.addr, page) + page
      && Chunks(calls[..|calls| - 1], page, a, buf, k - n)
  }

  ghost function Data(calls: seq<Call>): seq<bv8> {
    if calls == [] then [] else Data(calls[..|calls| - 1]) + calls[|calls| - 1].data
  }

  /** Their data put together is those bytes. */
  lemma {:induction false} ChunksJoin(calls: seq<Call>, page: nat, a: nat, buf: seq<bv8>, k: nat)
    requires page > 0 && k <= |buf| && Chunks(calls, page, a, buf, k)
    ensures Data(calls) == buf[..k]
    decreases |calls|
  {
    if calls != [] {
      var n := |calls[|calls| - 1].data|;
      ChunksJoin(calls[..|calls| - 1], page, a, buf, k - n);
      assert buf[..k - n] + buf[k - n..k] == buf[..k];
    }
  }

  /** Each call starts where those before it end, and stays in one page. */
  lemma {:induction false} ChunksPlaced(calls: seq<Call>, page: nat, a: nat, buf: seq<bv8>, k: nat, i: nat)
    requires page > 0 && k <= |buf| && Chunks(calls, page, a, buf, k) && i < |calls|
    ensures calls[i].addr == a + |Data(calls[..i])|
    ensures calls[i].addr + |calls[i].data| <= Base(calls[i].addr, page) + page
    decreases |calls|
  {
    var before, n := calls[..|calls| - 1], |calls[|calls| - 1].data|;
    if i < |calls| - 1 {
      ChunksPlaced(before, page, a, buf, k - n, i);
      assert before[..i] == calls[..i];
    } else {
      ChunksJoin(before, page, a, buf, k - n);
      assert calls[..i] == before;
    }
  }

  lemma ChunksNext(calls: seq<Call>, page: nat, a: nat, buf: seq<bv8>, k: nat, n: nat)
    requires page > 0 && k + n <= |buf| && Chunks(calls, page, a, buf, k)
    requires a + k + n <= Base(a + k, page) + page
    ensures Chunks(calls + [Call(a + k, buf[k..k + n])], page, a, buf, k + n)
  {
    var w := calls + [Call(a + k, buf[k..k + n])];
    assert w[..|w| - 1] == calls && w[|w| - 1] == Call(a + k, buf[k..k + n]);
    assert |buf[k..k + n]| == n;
  }

  class Flash {
    const pageSize: nat
    var cells: seq<bv8>
    ghost var calls: seq<Call>

    constructor (pageSize: nat, cells: seq<bv8>)
      ensures this.pageSize == pageSize && this.cells == cells && calls == []
    {
      this.pageSize, this.cells, calls := pageSize, cells, [];
    }

    /** The chip has whole pages. */
    ghost predicate Valid()
      reads this`cells
    {
      pageSize > 0 && Aligned(|cells|, pageSize)
    }

    /** The chip's program command, one byte after another. */
    method Program(a: nat, data: seq<bv8>)
      requires Valid() && (data == [] || a < |cells|)
      modifies this
      ensures Valid() && (data == [] || Base(a, pageSize) + pageSize <= |old(cells)|)
      ensures cells == Programmed(old(cells), pageSize, a, data)
      ensures calls == old(calls) + [Call(a, data)]
    {
      calls := calls + [Call(a, data)];
      if data != [] {
        WholePage(a, |cells|, pageSize);
      }
      var start, i, p := Base(a, pageSize), 0, a;
      while i < |data|
        invariant 0 <= i <= |data| && |cells| == |old(cells)| && p == Slot(a, i, start, pageSize)
        invariant calls == old(calls) + [Call(a, data)]
        invariant cells == Sent(old(cells), start, pageSize, a, data, i)
      {
        cells := cells[p := cells[p] & data[i]];
        p := Next(p, start, pageSize);
        i := i + 1;
      }
    }
  }

  lemma WholePage(a: nat, size: nat, page: nat)
    requires page > 0 && Aligned(size, page) && a < size
    ensures Base(a, page) + page <= size
  {
    if size < Base(a, page) + page {
      BaseAligned(a, page);
      BaseUnique(size, Base(a, page), page);
    }
  }

  lemma NextPage(a: nat, page: nat)
    requires page > 0
    ensures Base(Base(a, page) + page, page) == Base(a, page) + page
  {
    BaseAligned(a, page);
  }

  lemma AndedMore(before: seq<bv8>, a: nat, buf: seq<bv8>, k: nat, n: nat)
    requires k + n <= |buf| && a + |buf| <= |before|
    ensures Anded(Anded(before, a, buf[..k]), a + k, buf[k..k + n]) == Anded(before, a, buf[..k + n])
  {
    AndedJoin(before, a, buf[..k], buf[k..k + n]);
    assert buf[..k + n] == buf[..k] + buf[k..k + n];
  }

  lemma NothingWritten(before: seq<bv8>, a: nat, buf: seq<bv8>)
    requires a + |buf| <= |before|
    ensures Anded(before, a, buf[..0]) == before && buf[..|buf|] == buf
  {
  }

  /** A write of buf at a, which found the given cells and log. */
  datatype Write = Write(a: nat, buf: seq<bv8>, before: seq<bv8>, log: seq<Call>)

  /** Where it stands after k bytes, sent in the given calls: what is left of
      buf goes to cell `at`. */
  ghost predicate Standing(flash: Flash, w: Write, k: nat, at: nat, left: seq<bv8>, calls: seq<Call>)
    reads flash
  {
    && k <= |w.buf| && w.a + |w.buf| <= |w.before| && at == w.a + k && left == w.buf[k..]
    && flash.Valid() && flash.cells == Anded(w.before, w.a, w.buf[..k])
    && flash.calls == w.log + calls && Chunks(calls, flash.pageSize, w.a, w.buf, k)
  }

  /** Programming the next n bytes, inside a page, goes on with the flat write. */
  lemma PieceProgrammed(w: Write, page: nat, k: nat, n: nat, cells: seq<bv8>)
    requires page > 0 && k + n <= |w.buf| && w.a + |w.buf| <= |w.before|
    requires cells == Anded(w.before, w.a, w.buf[..k]) && (n == 0 || Base(w.a + k, page) + page <= |cells|)
    requires w.a + k + n <= Base(w.a + k, page) + page
    ensures Programmed(cells, page, w.a + k, w.buf[k..k + n]) == Anded(w.before, w.a, w.buf[..k + n])
  {
    InPageFlat(cells, page, w.a + k, w.buf[k..k + n]);
    AndedMore(w.before, w.a, w.buf, k, n);
  }

  lemma PieceOf(buf: seq<bv8>, k: nat, n: nat)
    requires k + n <= |buf|
    ensures buf[k..][..n] == buf[k..k + n] && buf[k..][n..] == buf[k + n..]
  {
  }

  /** One program call, of the n bytes that come next. */
  method ProgramPiece(flash: Flash, at: nat, left: seq<bv8>, n: nat,
                      ghost w: Write, ghost k: nat, ghost calls: seq<Call>)
    returns (ghost more: seq<Call>)
    requires Standing(flash, w, k, at, left, calls) && n <= |left|
    requires at + n <= Base(at, flash.pageSize) + flash.pageSize
    modifies flash
    ensures Standing(flash, w, k + n, at + n, left[n..], more)
  {
    PieceOf(w.buf, k, n);
    var piece := left[..n];
    ghost var goal := Anded(w.before, w.a, w.buf[..k + n]);
    flash.Program(at, piece);
    PieceProgrammed(w, flash.pageSize, k, n, old(flash.cells));
    assert flash.cells == goal;
    ChunksNext(calls, flash.pageSize, w.a, w.buf, k, n);
    more := calls + [Call(at, piece)];
  }

  /** The n bytes to go to cell `at` start a page or end in it. */
  predicate Placed(at: nat, n: nat, page: nat)
    requires page > 0
  {
    Base(at, page) == at || at + n <= Base(at, page) + page
  }

  /** A whole page, at a page boundary. */
  method ProgramPage(flash: Flash, at: nat, left: seq<bv8>, ghost w: Write, ghost k: nat, ghost calls: seq<Call>)
    returns (ghost more: seq<Call>)
    requires Standing(flash, w, k, at, left, calls) && |left| > flash.pageSize
    requires Placed(at, |left|, flash.pageSize)
    modifies flash
    ensures Standing(flash, w, k + flash.pageSize, at + flash.pageSize, left[flash.pageSize..], more)
    ensures Placed(at + flash.pageSize, |left| - flash.pageSize, flash.pageSize)
  {
    NextPage(at, flash.pageSize);
    more := ProgramPiece(flash, at, left, flash.pageSize, w, k, calls);
  }

  /** The whole pages, from a page boundary on. */
  method WritePages(flash: Flash, addr: nat, rest: seq<bv8>, ghost w: Write, ghost done: nat, ghost calls: seq<Call>)
    returns (at: nat, left: seq<bv8>, ghost k: nat, ghost more: seq<Call>)
    requires Standing(flash, w, done, addr, rest, calls)
    requires Placed(addr, |rest|, flash.pageSize)
    modifies flash
    ensures Standing(flash, w, k, at, left, more)
    ensures at + |left| <= Base(at, flash.pageSize) + flash.pageSize
  {
    var page := flash.pageSize;
    at, left, k, more := addr, rest, done, calls;
    while |left| > page
      invariant Standing(flash, w, k, at, left, more)
      invariant Placed(at, |left|, page)
      decreases |left|
    {
      more := ProgramPage(flash, at, left, w, k, more);
      at, left, k := at + page, left[page..], k + page;
    }
  }

  /** `spi_nor_write`: for any address, length and page size, the page-wise calls
      make one flat write, and no call crosses a page. */
  method SpiNorWrite(flash: Flash?, addr: nat, buf: seq<bv8>) returns (ghost made: seq<Call>)
    requires flash != null ==> flash.Valid() && addr + |buf| <= |flash.cells|
    modifies flash
    ensures flash != null ==> flash.Valid() && flash.cells == Anded(old(flash.cells), addr, buf)
    ensures flash != null ==> forall j :: 0 <= j < |flash.cells| ==>
              flash.cells[j] == if addr <= j < addr + |buf| then old(flash.cells)[j] & buf[j - addr] else old(flash.cells)[j]
    ensures flash != null ==> flash.calls == old(flash.calls) + made
                              && Chunks(made, flash.pageSize, addr, buf, |buf|)
  {
    made := [];
    if flash == null {
      return;
    }
    ghost var w := Write(addr, buf, flash.cells, flash.calls);
    NothingWritten(flash.cells, addr, buf);
    made := WriteAll(flash, addr, buf, w);
  }

  /** The pieces: up to the first page boundary, whole pages, and what is left. */
  method WriteAll(flash: Flash, addr: nat, buf: seq<bv8>, ghost w: Write) returns (ghost made: seq<Call>)
    requires Standing(flash, w, 0, addr, buf, [])
    modifies flash
    ensures Standing(flash, w, |buf|, addr + |buf|, [], made)
  {
    var at: nat, left;
    ghost var k;
    at, left, k, made := FirstPiece(flash, addr, buf, w);
    at, left, k, made := WritePages(flash, at, left, w, k, made);
    made := ProgramPiece(flash, at, left, |left|, w, k, made);
  }

  method FirstPiece(flash: Flash, addr: nat, buf: seq<bv8>, ghost w: Write)
    returns (at: nat, left: seq<bv8>, ghost k: nat, ghost made: seq<Call>)
    requires Standing(flash, w, 0, addr, buf, [])
    modifies flash
    ensures Standing(flash, w, k, at, left, made)
    ensures Placed(at, |left|, flash.pageSize)
  {
    var page := flash.pageSize;
    at, left, k, made := addr, buf, 0, [];
    var remain := page - (at - Base(at, page));
    if remain != 0 && |left| > remain {
      NextPage(at, page);
      made := ProgramPiece(flash, at, left, remain, w, k, made);
      at, left, k := at + remain, left[remain..], remain;
    }
  }
}

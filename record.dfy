/**
 * The record manager of include/record.h: fixed-length records stored in
 * the data pages of a table file.
 *
 * Page 0 of a table file holds its `TableHeader`.  Every later page is a
 * data page: a 4-byte `PageHeader` (`_nextSlot`), then a bitmap of
 * `ceil(slotsPerPage, 8)` bytes with one bit per slot (set = the slot holds
 * a record), then `slotsPerPage` slots of `recordSize` bytes each.
 *
 * The manager works on the logical content of the pages, without the
 * buffer pool in between: `pages` maps a page number to its header word
 * and the 4092 bytes after it, a page that was never written reading as
 * zeros, and `dirty` collects the pages the manager marks dirty.  Page 0
 * is kept as the structured header `hdr0`.
 */
module RecordMgr {
  import opened BitMaps
  import PagedFile

  datatype Option<T> = None | Some(value: T)

  /** `sizeof(PageHeader)`: the `_nextSlot` word at the start of a data page. */
  const PAGE_HEADER_SIZE: nat := 4

  /** The bytes of a data page after its `PageHeader`: the bitmap, then the slots. */
  const BODY_SIZE: nat := PagedFile.PAGESIZE - PAGE_HEADER_SIZE

  /** `MAXRECORDSIZE`. */
  const MAX_RECORD_SIZE: nat := PagedFile.PAGESIZE - PAGE_HEADER_SIZE - 1

  /** `uint32_t(-1)`: the slot of the end iterator. */
  const NO_SLOT: nat := U32 - 1

  /** `TableHeader`: record size, number of data pages, slots per page, first page that may have room. */
  datatype TableHeader = TableHeader(recordSize: nat, existsPageNum: nat, slotsPerPage: nat, nextPage: nat)

  /** `Rid`: a record's file, data page and slot. */
  datatype Rid = Rid(fd: int, page: nat, slot: nat)

  /** A data page: its `_nextSlot` and the bytes after the `PageHeader`. */
  datatype DataPage = DataPage(nextSlot: nat, body: seq<byte>)

  /** A page that was never written: header word 0 and zero bytes. */
  const EMPTY_PAGE: DataPage := DataPage(0, Filled(BODY_SIZE, 0))

  /** The state of one open table: the manager's header, page 0's header, the data pages and the pages marked dirty. */
  datatype Table = Table(th: TableHeader, hdr0: TableHeader, pages: map<nat, DataPage>, dirty: set<nat>)

  /**
   * `calSlotsPerPage`: `(8 * 4092 - 7) / (8 * recordSize + 1)`, the divisor
   * computed in 32-bit unsigned arithmetic.
   */
  function CalSlotsPerPage(recordSize: nat): (n: nat)
    requires recordSize < U32
    ensures n <= BYTE_IN_BITS * BODY_SIZE - (BYTE_IN_BITS - 1)
  {
    (BYTE_IN_BITS * BODY_SIZE - (BYTE_IN_BITS - 1)) / ((BYTE_IN_BITS * recordSize + 1) % U32)
  }

  /** The bitmap of `n` slots takes `ceil(n, 8)` bytes. */
  function BitmapBytes(n: nat): (w: nat)
    requires n + BYTE_IN_BITS <= U32
    ensures n <= BYTE_IN_BITS * w < n + BYTE_IN_BITS
  {
    CeilBytes(n);
    Ceil(n, BYTE_IN_BITS)
  }

  /** `m * (a + 1) == m * a + m`, one step of the products the slot offsets need. */
  lemma MulStep(m: nat, a: nat)
    ensures m * (a + 1) == m * a + m
  {
  }

  /** Slots of distinct indexes start at least one record apart. */
  lemma MulMono(m: nat, a: nat, b: nat)
    requires a < b
    ensures m * a + m <= m * b
  {
    MulStep(m, a);
    var d: nat := b - (a + 1);
    assert m * b == m * (a + 1) + m * d;
  }

  /**
   * The promise written above `calSlotsPerPage`: for every record size the
   * table accepts, at least one record fits a page, and the page header, the
   * bitmap and all `slotsPerPage` slots fit in 4096 bytes.
   */
  lemma SlotPacking(rs: nat)
    requires 1 <= rs <= MAX_RECORD_SIZE
    ensures CalSlotsPerPage(rs) >= 1
    ensures PAGE_HEADER_SIZE + BitmapBytes(CalSlotsPerPage(rs)) + CalSlotsPerPage(rs) * rs <= PagedFile.PAGESIZE
  {
    var m := BYTE_IN_BITS * rs + 1;
    assert m % U32 == m;
    var total := BYTE_IN_BITS * BODY_SIZE - (BYTE_IN_BITS - 1);
    var n := CalSlotsPerPage(rs);
    assert n == total / m;
    assert n * m + total % m == total;
    assert n * m == BYTE_IN_BITS * (n * rs) + n;
    CeilBytes(n);
  }

  /** For record size 1 the formula gives 3636 slots, though 3637 would also fit. */
  lemma SlotsPerPageNotMaximal()
    ensures CalSlotsPerPage(1) == 3636
    ensures PAGE_HEADER_SIZE + BitmapBytes(3637) + 3637 * 1 <= PagedFile.PAGESIZE
  {
    assert (BYTE_IN_BITS * 1 + 1) % U32 == 9;
    CeilBytes(3637);
  }

  function Max(a: nat, b: nat): nat { if a < b then b else a }

  function Min(a: nat, b: nat): nat { if a < b then a else b }

  /**
   * A header the manager can work with: an accepted record size, the slot
   * count `calSlotsPerPage` gives for it, and the layout facts `SlotPacking`
   * proves about that count.
   */
  ghost predicate Shape(th: TableHeader)
  {
    1 <= th.recordSize <= MAX_RECORD_SIZE && th.slotsPerPage == CalSlotsPerPage(th.recordSize)
    && 1 <= th.slotsPerPage && BitmapBytes(th.slotsPerPage) + th.slotsPerPage * th.recordSize <= BODY_SIZE
  }

  /** Every header with an accepted record size and `calSlotsPerPage`'s slot count has the shape. */
  lemma ShapeOf(th: TableHeader)
    requires 1 <= th.recordSize <= MAX_RECORD_SIZE && th.slotsPerPage == CalSlotsPerPage(th.recordSize)
    ensures Shape(th)
  {
    SlotPacking(th.recordSize);
  }

  /** Every stored data page has all 4092 bytes after its header. */
  ghost predicate Sized(t: Table)
  {
    forall k :: k in t.pages ==> |t.pages[k].body| == BODY_SIZE
  }

  ghost predicate Geometry(t: Table)
  {
    Shape(t.th) && Sized(t)
  }

  /** Data page `k` as `getPage` gives it: its stored content, or zeros if it was never written. */
  function PageAt(t: Table, k: nat): DataPage
  {
    if k in t.pages then t.pages[k] else EMPTY_PAGE
  }

  /** The first `width` bytes after page `k`'s header: what a `BitMap` of that size views. */
  function View(t: Table, k: nat, width: nat): (v: seq<byte>)
    requires Sized(t) && width <= BODY_SIZE
    ensures |v| == width
  {
    PageAt(t, k).body[..width]
  }

  /** The bitmap of page `k`: `ceil(slotsPerPage, 8)` bytes. */
  function Bitmap(t: Table, k: nat): (v: seq<byte>)
    requires Geometry(t)
    ensures |v| == BitmapBytes(t.th.slotsPerPage)
  {
    View(t, k, BitmapBytes(t.th.slotsPerPage))
  }

  /** Slot `s` of page `k` is marked in the page's bitmap: a record lives there. */
  predicate Used(t: Table, k: nat, s: nat)
    requires Geometry(t)
  {
    s < BYTE_IN_BITS * BitmapBytes(t.th.slotsPerPage) && BitAt(Bitmap(t, k), s)
  }

  /** The bytes of page `k` after its bitmap: the slots, one after another, `recordSize` bytes each. */
  function SlotArea(t: Table, k: nat): (a: seq<byte>)
    requires Geometry(t)
    ensures |a| == BODY_SIZE - BitmapBytes(t.th.slotsPerPage)
  {
    PageAt(t, k).body[BitmapBytes(t.th.slotsPerPage)..]
  }

  /** Where slot `s` starts in the slot area: `recordSize * s`. */
  function SlotOffset(th: TableHeader, s: nat): nat
  {
    th.recordSize * s
  }

  /** Every slot below `slotsPerPage` lies inside the page. */
  lemma SlotFits(th: TableHeader, s: nat)
    requires Shape(th) && s < th.slotsPerPage
    ensures SlotOffset(th, s) + th.recordSize <= BODY_SIZE - BitmapBytes(th.slotsPerPage)
  {
    MulMono(th.recordSize, s, th.slotsPerPage);
  }

  /** Two different slots of a page share no byte. */
  lemma SlotsDisjoint(th: TableHeader, a: nat, b: nat)
    requires a != b
    ensures SlotOffset(th, a) + th.recordSize <= SlotOffset(th, b) || SlotOffset(th, b) + th.recordSize <= SlotOffset(th, a)
  {
    if a < b { MulMono(th.recordSize, a, b); } else { MulMono(th.recordSize, b, a); }
  }

  /**
   * The `recordSize` bytes of slot `s` of page `k`, which `readSlot` points
   * at: `ceil(slotsPerPage, 8) + recordSize * s` bytes after the page header.
   */
  function SlotBytes(t: Table, k: nat, s: nat): (d: seq<byte>)
    requires Geometry(t) && s < t.th.slotsPerPage
    ensures |d| == t.th.recordSize
  {
    SlotFits(t.th, s);
    SlotArea(t, k)[SlotOffset(t.th, s)..SlotOffset(t.th, s) + t.th.recordSize]
  }

  /**
   * What a data page keeps true: every slot below `_nextSlot` is used, the
   * slot at `_nextSlot` (when there is one) is free, and the bits past the
   * last slot are clear.
   */
  ghost predicate PageOk(pg: DataPage, n: nat)
    requires n + BYTE_IN_BITS <= U32 && BitmapBytes(n) <= |pg.body|
  {
    var bm := pg.body[..BitmapBytes(n)];
    (forall s: nat :: s < pg.nextSlot && s < n ==> BitAt(bm, s))
    && (pg.nextSlot < n ==> !BitAt(bm, pg.nextSlot))
    && (forall s: nat :: n <= s < BYTE_IN_BITS * |bm| ==> !BitAt(bm, s))
  }

  /**
   * What the manager keeps true of a table: the two copies of the header
   * agree; `_nextPage` is 1 while there are no data pages and one of them
   * otherwise; only pages 1 to `_existsPageNum` were written, each a good
   * page; and every page before `_nextPage` is full.
   */
  ghost predicate TableInv(t: Table)
  {
    Geometry(t) && t.hdr0 == t.th
    && 1 <= t.th.nextPage && (t.th.existsPageNum == 0 ==> t.th.nextPage == 1)
    && (t.th.existsPageNum > 0 ==> t.th.nextPage <= t.th.existsPageNum)
    && (forall k :: k in t.pages ==> 1 <= k <= t.th.existsPageNum)
    && (forall k :: k in t.pages ==> PageOk(t.pages[k], t.th.slotsPerPage))
    && (forall k :: 1 <= k < t.th.nextPage ==> PageAt(t, k).nextSlot >= t.th.slotsPerPage)
  }

  /** A page never written is a good page with no record. */
  lemma EmptyPageOk(n: nat)
    requires n + BYTE_IN_BITS <= U32 && BitmapBytes(n) <= BODY_SIZE
    ensures PageOk(EMPTY_PAGE, n)
    ensures forall s: nat :: s < BYTE_IN_BITS * BitmapBytes(n) ==> !BitAt(EMPTY_PAGE.body[..BitmapBytes(n)], s)
  {
    var w := BitmapBytes(n);
    forall s: nat | s < BYTE_IN_BITS * w
      ensures !BitAt(EMPTY_PAGE.body[..w], s)
    {
      FilledBits(BODY_SIZE, s);
      BitAtPrefix(EMPTY_PAGE.body, w, s);
    }
  }

  /** Every page of a good table is a good page. */
  lemma PageAtOk(t: Table, k: nat)
    requires TableInv(t)
    ensures PageOk(PageAt(t, k), t.th.slotsPerPage)
  {
    if k !in t.pages {
      EmptyPageOk(t.th.slotsPerPage);
    }
  }

  /** In a good table a used slot is a slot of a written data page. */
  lemma UsedBounds(t: Table, k: nat, s: nat)
    requires TableInv(t) && Used(t, k, s)
    ensures k in t.pages && 1 <= k <= t.th.existsPageNum && s < t.th.slotsPerPage
  {
    if k !in t.pages {
      EmptyPageOk(t.th.slotsPerPage);
      assert false;
    }
    assert PageOk(t.pages[k], t.th.slotsPerPage);
  }

  /** `r` comes before `q` in (page, slot) order. */
  predicate Precedes(p1: nat, s1: nat, p2: nat, s2: nat)
  {
    p1 < p2 || (p1 == p2 && s1 < s2)
  }

  // ---------------------------------------------------------------------
  // One data page

  /** `bm.set(_nextSlot); _nextSlot = bm.nextBit(_nextSlot + 1)`: the page's next free slot is taken. */
  function Claim(pg: DataPage, n: nat): DataPage
    requires n + BYTE_IN_BITS <= U32 && BitmapBytes(n) <= |pg.body| && pg.nextSlot < n
  {
    var w := BitmapBytes(n);
    var bm := WithBitSet(pg.body[..w], pg.nextSlot);
    DataPage(Scan(bm, pg.nextSlot + 1, false), bm + pg.body[w..])
  }

  /** `_nextSlot = min(_nextSlot, slot); bm.reset(slot)`: slot `slot` of the page is given back. */
  function Unclaim(pg: DataPage, n: nat, slot: nat): DataPage
    requires n + BYTE_IN_BITS <= U32 && BitmapBytes(n) <= |pg.body| && slot < BYTE_IN_BITS * BitmapBytes(n)
  {
    var w := BitmapBytes(n);
    DataPage(Min(pg.nextSlot, slot), WithBitReset(pg.body[..w], slot) + pg.body[w..])
  }

  /** Taking the next free slot sets exactly that bit, touches no byte past the bitmap, and keeps the page good. */
  lemma ClaimOk(pg: DataPage, n: nat)
    requires n + BYTE_IN_BITS <= U32 && BitmapBytes(n) <= |pg.body| && pg.nextSlot < n && PageOk(pg, n)
    ensures |Claim(pg, n).body| == |pg.body|
    ensures Claim(pg, n).body[..BitmapBytes(n)] == WithBitSet(pg.body[..BitmapBytes(n)], pg.nextSlot)
    ensures Claim(pg, n).body[BitmapBytes(n)..] == pg.body[BitmapBytes(n)..]
    ensures PageOk(Claim(pg, n), n)
  {
    var w := BitmapBytes(n);
    var bm0 := pg.body[..w];
    var bm := WithBitSet(bm0, pg.nextSlot);
    var c := Claim(pg, n);
    assert c.body[..w] == bm;
    assert c.body[w..] == pg.body[w..];
    forall s: nat | s < BYTE_IN_BITS * w
      ensures BitAt(bm, s) == (s == pg.nextSlot || BitAt(bm0, s))
    {
      BitAtWithBitSet(bm0, pg.nextSlot, s);
    }
  }

  /** Giving a used slot back clears exactly that bit, touches no byte past the bitmap, and keeps the page good. */
  lemma UnclaimOk(pg: DataPage, n: nat, slot: nat)
    requires n + BYTE_IN_BITS <= U32 && BitmapBytes(n) <= |pg.body| && slot < BYTE_IN_BITS * BitmapBytes(n)
    requires PageOk(pg, n) && BitAt(pg.body[..BitmapBytes(n)], slot)
    ensures slot < n && Unclaim(pg, n, slot).nextSlot < n
    ensures |Unclaim(pg, n, slot).body| == |pg.body|
    ensures Unclaim(pg, n, slot).body[..BitmapBytes(n)] == WithBitReset(pg.body[..BitmapBytes(n)], slot)
    ensures Unclaim(pg, n, slot).body[BitmapBytes(n)..] == pg.body[BitmapBytes(n)..]
    ensures PageOk(Unclaim(pg, n, slot), n)
  {
    var w := BitmapBytes(n);
    var bm0 := pg.body[..w];
    var bm := WithBitReset(bm0, slot);
    var u := Unclaim(pg, n, slot);
    assert u.body[..w] == bm;
    assert u.body[w..] == pg.body[w..];
    forall s: nat | s < BYTE_IN_BITS * w
      ensures BitAt(bm, s) == (s != slot && BitAt(bm0, s))
    {
      BitAtWithBitReset(bm0, slot, s);
    }
  }

  // ---------------------------------------------------------------------
  // The table operations, as functions of the table

  /**
   * `setFileHeader(e, np)`: both copies of the header get the new page
   * counts, and page 0 is marked dirty when its copy changes.
   */
  function SetHeader(t: Table, e: nat, np: nat): Table
  {
    Table(t.th.(existsPageNum := e, nextPage := np),
          t.hdr0.(existsPageNum := e, nextPage := np),
          t.pages,
          if t.hdr0.existsPageNum != e || t.hdr0.nextPage != np then t.dirty + {0} else t.dirty)
  }

  /** Page 0 is marked dirty exactly when it was dirty already or its header changes; repeating the call changes nothing. */
  lemma SetHeaderMarks(t: Table, e: nat, np: nat)
    ensures 0 in SetHeader(t, e, np).dirty <==> 0 in t.dirty || t.hdr0.existsPageNum != e || t.hdr0.nextPage != np
    ensures SetHeader(t, e, np).dirty - {0} == t.dirty - {0}
    ensures SetHeader(SetHeader(t, e, np), e, np) == SetHeader(t, e, np)
  {
  }

  /** The first step of getFreeSlot: a table with no data page gets page 1. */
  function Start(t: Table): Table
  {
    if t.th.existsPageNum == 0 && t.th.nextPage == 1 then SetHeader(t, 1, 1) else t
  }

  lemma StartKeeps(t: Table)
    requires TableInv(t)
    ensures TableInv(Start(t)) && Start(t).pages == t.pages
    ensures Start(t).th.existsPageNum == Max(t.th.existsPageNum, 1)
    ensures Start(t).th.nextPage == t.th.nextPage
    ensures Start(t).th.recordSize == t.th.recordSize && Start(t).th.slotsPerPage == t.th.slotsPerPage
  {
  }

  /** The loop of getFreeSlot: the first page from `from` on whose `_nextSlot` is below `slotsPerPage`. */
  function FirstRoom(t: Table, from: nat): (k: nat)
    requires TableInv(t) && from <= t.th.existsPageNum + 1
    ensures from <= k <= t.th.existsPageNum + 1
    ensures PageAt(t, k).nextSlot < t.th.slotsPerPage
    ensures forall j :: from <= j < k ==> PageAt(t, j).nextSlot >= t.th.slotsPerPage
    decreases t.th.existsPageNum + 1 - from
  {
    if PageAt(t, from).nextSlot < t.th.slotsPerPage then from else FirstRoom(t, from + 1)
  }

  /** The page getFreeSlot takes its slot from: `_nextPage` if it has room, otherwise the first later page that has. */
  function RoomPage(t: Table): nat
    requires TableInv(t)
  {
    StartKeeps(t);
    var t1 := Start(t);
    if PageAt(t1, t1.th.nextPage).nextSlot < t1.th.slotsPerPage then t1.th.nextPage
    else FirstRoom(t1, t1.th.nextPage + 1)
  }

  /** getFreeSlot's page is the first data page with room: every page before it is full. */
  lemma RoomPageIsFirst(t: Table)
    requires TableInv(t)
    ensures 1 <= RoomPage(t) <= Max(t.th.existsPageNum, 1) + 1
    ensures RoomPage(t) >= t.th.nextPage
    ensures PageAt(t, RoomPage(t)).nextSlot < t.th.slotsPerPage
    ensures forall j :: 1 <= j < RoomPage(t) ==> PageAt(t, j).nextSlot >= t.th.slotsPerPage
  {
    StartKeeps(t);
  }

  /**
   * `getFreeSlot`: the manager's next free slot, taken.  The chosen page
   * gets its bit set and its `_nextSlot` moved on and is marked dirty; when
   * the page is not `_nextPage`, the header moves `_nextPage` to it and
   * `_existsPageNum` up to it.
   */
  function FreeSlot(t: Table, fd: int): (Table, Rid)
    requires TableInv(t)
  {
    StartKeeps(t);
    RoomPageIsFirst(t);
    var t1 := Start(t);
    var k := RoomPage(t);
    var pg := PageAt(t1, k);
    var t2 := t1.(pages := t1.pages[k := Claim(pg, t1.th.slotsPerPage)], dirty := t1.dirty + {k});
    (if k == t1.th.nextPage then t2 else SetHeader(t2, Max(t1.th.existsPageNum, k), k), Rid(fd, k, pg.nextSlot))
  }

  /**
   * Storing a good page into a page the header covers keeps the table good,
   * as long as every page before the new `_nextPage` is still full.
   */
  lemma StorePageKeeps(t: Table, k: nat, pg: DataPage, e: nat, np: nat, d: set<nat>)
    requires TableInv(t) && |pg.body| == BODY_SIZE && PageOk(pg, t.th.slotsPerPage)
    requires 1 <= k <= e && t.th.existsPageNum <= e && 1 <= np <= e
    requires k < np ==> pg.nextSlot >= t.th.slotsPerPage
    requires forall j :: 1 <= j < np && j != k ==> PageAt(t, j).nextSlot >= t.th.slotsPerPage
    ensures TableInv(Table(t.th.(existsPageNum := e, nextPage := np), t.hdr0.(existsPageNum := e, nextPage := np), t.pages[k := pg], d))
  {
    var t' := Table(t.th.(existsPageNum := e, nextPage := np), t.hdr0.(existsPageNum := e, nextPage := np), t.pages[k := pg], d);
    assert forall j :: j != k ==> PageAt(t', j) == PageAt(t, j);
  }

  /** The table getFreeSlot leaves: the taken page stored, `_nextPage` at it and `_existsPageNum` covering it. */
  lemma FreeSlotShape(t: Table, fd: int)
    requires TableInv(t)
    ensures BitmapBytes(t.th.slotsPerPage) <= |PageAt(t, RoomPage(t)).body|
    ensures PageAt(t, RoomPage(t)).nextSlot < t.th.slotsPerPage
    ensures var k := RoomPage(t);
      var e := Max(Max(t.th.existsPageNum, 1), k);
      FreeSlot(t, fd).0 == Table(t.th.(existsPageNum := e, nextPage := k), t.hdr0.(existsPageNum := e, nextPage := k),
        t.pages[k := Claim(PageAt(t, k), t.th.slotsPerPage)], FreeSlot(t, fd).0.dirty)
    ensures FreeSlot(t, fd).1 == Rid(fd, RoomPage(t), PageAt(t, RoomPage(t)).nextSlot)
  {
    StartKeeps(t);
    RoomPageIsFirst(t);
  }

  lemma RoomFromNext(t: Table)
    requires TableInv(t)
    ensures t.th.nextPage <= RoomPage(t)
  {
    RoomPageIsFirst(t);
  }

  /** A full page from `_nextPage` on comes before the page getFreeSlot takes. */
  lemma RoomIsLater(t: Table, j: nat)
    requires TableInv(t) && t.th.nextPage <= j <= RoomPage(t)
    requires PageAt(t, j).nextSlot >= t.th.slotsPerPage
    ensures j < RoomPage(t)
  {
    RoomPageIsFirst(t);
  }

  /** The first page with room from `_nextPage` on is the page getFreeSlot takes. */
  lemma RoomFound(t: Table, j: nat)
    requires TableInv(t) && t.th.nextPage <= j <= RoomPage(t)
    requires PageAt(t, j).nextSlot < t.th.slotsPerPage
    ensures j == RoomPage(t)
  {
    RoomPageIsFirst(t);
  }

  /** getFreeSlot step by step: the header started, the slot claimed and its page marked, then the header moved to a later page. */
  lemma FreeSlotSteps(t: Table, fd: int)
    requires TableInv(t)
    ensures var t1 := Start(t);
      var k := RoomPage(t);
      var pg := PageAt(t1, k);
      var t2 := t1.(pages := t1.pages[k := Claim(pg, t1.th.slotsPerPage)], dirty := t1.dirty + {k});
      FreeSlot(t, fd) == (if k == t1.th.nextPage then t2 else SetHeader(t2, Max(t1.th.existsPageNum, k), k), Rid(fd, k, pg.nextSlot))
  {
  }

  /** getFreeSlot keeps the table good. */
  lemma FreeSlotKeeps(t: Table, fd: int)
    requires TableInv(t)
    ensures TableInv(FreeSlot(t, fd).0)
    ensures FreeSlot(t, fd).0.th.recordSize == t.th.recordSize && FreeSlot(t, fd).0.th.slotsPerPage == t.th.slotsPerPage
  {
    FreeSlotShape(t, fd);
    RoomPageIsFirst(t);
    var k := RoomPage(t);
    PageAtOk(t, k);
    ClaimOk(PageAt(t, k), t.th.slotsPerPage);
    StorePageKeeps(t, k, Claim(PageAt(t, k), t.th.slotsPerPage), Max(Max(t.th.existsPageNum, 1), k), k, FreeSlot(t, fd).0.dirty);
  }

  /**
   * getFreeSlot hands out a slot that was free, below `slotsPerPage`, on a
   * data page; afterwards exactly that slot is used in addition to the
   * slots used before, `_nextPage` is its page and `_existsPageNum` covers it.
   */
  lemma FreeSlotTakes(t: Table, fd: int)
    requires TableInv(t)
    ensures var (t', rid) := FreeSlot(t, fd);
      && TableInv(t')
      && rid.fd == fd && 1 <= rid.page && rid.slot < t.th.slotsPerPage
      && !Used(t, rid.page, rid.slot)
      && t'.th.nextPage == rid.page && t'.th.existsPageNum == Max(Max(t.th.existsPageNum, 1), rid.page)
      && (forall k: nat, s: nat :: Used(t', k, s) <==> Used(t, k, s) || (k == rid.page && s == rid.slot))
  {
    FreeSlotKeeps(t, fd);
    FreeSlotShape(t, fd);
    RoomPageIsFirst(t);
    var k := RoomPage(t);
    var n := t.th.slotsPerPage;
    var pg := PageAt(t, k);
    PageAtOk(t, k);
    ClaimOk(pg, n);
    var (t', rid) := FreeSlot(t, fd);
    assert PageAt(t', k) == Claim(pg, n);
    assert Bitmap(t', k) == WithBitSet(Bitmap(t, k), pg.nextSlot);
    forall j: nat, s: nat
      ensures Used(t', j, s) <==> Used(t, j, s) || (j == rid.page && s == rid.slot)
    {
      if j == k && s < BYTE_IN_BITS * BitmapBytes(n) {
        BitAtWithBitSet(Bitmap(t, k), pg.nextSlot, s);
      } else if j != k {
        assert PageAt(t', j) == PageAt(t, j);
      }
    }
  }

  /** getFreeSlot hands out the lowest free slot in (page, slot) order. */
  lemma FreeSlotLowest(t: Table, fd: int)
    requires TableInv(t)
    ensures var rid := FreeSlot(t, fd).1;
      forall k: nat, s: nat :: 1 <= k && s < t.th.slotsPerPage && !Used(t, k, s) ==> !Precedes(k, s, rid.page, rid.slot)
  {
    FreeSlotShape(t, fd);
    RoomPageIsFirst(t);
    var rid := FreeSlot(t, fd).1;
    forall k: nat, s: nat | 1 <= k && s < t.th.slotsPerPage && !Used(t, k, s)
      ensures !Precedes(k, s, rid.page, rid.slot)
    {
      PageAtOk(t, k);
    }
  }

  /** getFreeSlot changes no byte after the bitmap of any page, so no byte of any slot. */
  lemma FreeSlotKeepsBytes(t: Table, fd: int)
    requires TableInv(t)
    ensures TableInv(FreeSlot(t, fd).0)
    ensures forall k: nat :: SlotArea(FreeSlot(t, fd).0, k) == SlotArea(t, k)
  {
    FreeSlotKeeps(t, fd);
    FreeSlotShape(t, fd);
    var k := RoomPage(t);
    PageAtOk(t, k);
    ClaimOk(PageAt(t, k), t.th.slotsPerPage);
    var t' := FreeSlot(t, fd).0;
    assert PageAt(t', k) == Claim(PageAt(t, k), t.th.slotsPerPage);
    forall j: nat
      ensures SlotArea(t', j) == SlotArea(t, j)
    {
      if j != k {
        assert PageAt(t', j) == PageAt(t, j);
      }
    }
  }


  /** `deleteSlot(r)`: the slot is given back, its page marked dirty, and `_nextPage` moved back to its page when that is earlier. */
  function Deleted(t: Table, r: Rid): Table
    requires Geometry(t) && Used(t, r.page, r.slot)
  {
    var pg := Unclaim(PageAt(t, r.page), t.th.slotsPerPage, r.slot);
    SetHeader(t.(pages := t.pages[r.page := pg], dirty := t.dirty + {r.page}), t.th.existsPageNum, Min(t.th.nextPage, r.page))
  }

  /** deleteSlot keeps the table good. */
  lemma DeletedKeeps(t: Table, r: Rid)
    requires TableInv(t) && Used(t, r.page, r.slot)
    ensures TableInv(Deleted(t, r))
  {
    UsedBounds(t, r.page, r.slot);
    var n := t.th.slotsPerPage;
    PageAtOk(t, r.page);
    UnclaimOk(PageAt(t, r.page), n, r.slot);
    var pg := Unclaim(PageAt(t, r.page), n, r.slot);
    var np := Min(t.th.nextPage, r.page);
    StorePageKeeps(t, r.page, pg, t.th.existsPageNum, np, Deleted(t, r).dirty);
    assert Deleted(t, r) == Table(t.th.(existsPageNum := t.th.existsPageNum, nextPage := np),
      t.hdr0.(existsPageNum := t.th.existsPageNum, nextPage := np), t.pages[r.page := pg], Deleted(t, r).dirty);
  }

  /**
   * deleteSlot frees exactly the deleted slot: every other slot stays used
   * or free as it was, no byte after any bitmap changes, `_existsPageNum`
   * stays, and `_nextPage` becomes the earlier of itself and the slot's page.
   */
  lemma DeletedFrees(t: Table, r: Rid)
    requires TableInv(t) && Used(t, r.page, r.slot)
    ensures TableInv(Deleted(t, r))
    ensures forall k: nat, s: nat :: Used(Deleted(t, r), k, s) <==> Used(t, k, s) && !(k == r.page && s == r.slot)
    ensures forall k: nat :: SlotArea(Deleted(t, r), k) == SlotArea(t, k)
    ensures Deleted(t, r).th.existsPageNum == t.th.existsPageNum
    ensures Deleted(t, r).th.nextPage == Min(t.th.nextPage, r.page)
  {
    DeletedKeeps(t, r);
    var n := t.th.slotsPerPage;
    var pg := PageAt(t, r.page);
    PageAtOk(t, r.page);
    UnclaimOk(pg, n, r.slot);
    var t' := Deleted(t, r);
    assert PageAt(t', r.page) == Unclaim(pg, n, r.slot);
    assert Bitmap(t', r.page) == WithBitReset(Bitmap(t, r.page), r.slot);
    forall j: nat, s: nat
      ensures Used(t', j, s) <==> Used(t, j, s) && !(j == r.page && s == r.slot)
    {
      if j == r.page && s < BYTE_IN_BITS * BitmapBytes(n) {
        BitAtWithBitReset(Bitmap(t, r.page), r.slot, s);
      } else if j != r.page {
        assert PageAt(t', j) == PageAt(t, j);
      }
    }
    forall j: nat
      ensures SlotArea(t', j) == SlotArea(t, j)
    {
      if j != r.page {
        assert PageAt(t', j) == PageAt(t, j);
      }
    }
  }

  /** After a delete, the next insert takes the freed slot or an earlier one. */
  lemma DeleteThenInsertReuses(t: Table, r: Rid, fd: int)
    requires TableInv(t) && Used(t, r.page, r.slot)
    ensures TableInv(Deleted(t, r))
    ensures var rid := FreeSlot(Deleted(t, r), fd).1; !Precedes(r.page, r.slot, rid.page, rid.slot)
  {
    DeletedFrees(t, r);
    UsedBounds(t, r.page, r.slot);
    FreeSlotLowest(Deleted(t, r), fd);
    assert !Used(Deleted(t, r), r.page, r.slot);
  }

  /** `memcpy(a + o, d, |d|)`: the bytes of `a` with `d` written at offset `o`. */
  function Put(a: seq<byte>, o: nat, d: seq<byte>): (b: seq<byte>)
    requires o + |d| <= |a|
    ensures |b| == |a|
  {
    a[..o] + d + a[o + |d|..]
  }

  /** Reading back where `d` was put gives `d`. */
  lemma PutReads(a: seq<byte>, o: nat, d: seq<byte>)
    requires o + |d| <= |a|
    ensures Put(a, o, d)[o..o + |d|] == d
  {
    var b := Put(a, o, d);
    forall i | o <= i < o + |d|
      ensures b[i] == d[i - o]
    {
    }
  }

  /** Putting bytes past offset `w` leaves the first `w` bytes and puts into the rest. */
  lemma PutPast(a: seq<byte>, o: nat, d: seq<byte>, w: nat)
    requires w <= o && o + |d| <= |a|
    ensures Put(a, o, d)[..w] == a[..w]
    ensures Put(a, o, d)[w..] == Put(a[w..], o - w, d)
  {
    var b := Put(a, o, d);
    var c := Put(a[w..], o - w, d);
    assert |b[w..]| == |c|;
    forall i | 0 <= i < |c|
      ensures b[w..][i] == c[i]
    {
    }
  }

  /** A range that does not meet the put bytes reads as before. */
  lemma PutOutside(a: seq<byte>, o: nat, d: seq<byte>, lo: nat, hi: nat)
    requires o + |d| <= |a| && lo <= hi <= |a| && (hi <= o || o + |d| <= lo)
    ensures Put(a, o, d)[lo..hi] == a[lo..hi]
  {
    var b := Put(a, o, d);
    assert forall i | lo <= i < hi :: b[i] == a[i];
  }

  /** `writeSlot(r, data)`: the record's `recordSize` bytes become `data` and its page is marked dirty. */
  function Written(t: Table, r: Rid, data: seq<byte>): Table
    requires TableInv(t) && Used(t, r.page, r.slot) && |data| == t.th.recordSize
  {
    UsedBounds(t, r.page, r.slot);
    SlotFits(t.th, r.slot);
    var pg := PageAt(t, r.page);
    var o := BitmapBytes(t.th.slotsPerPage) + SlotOffset(t.th, r.slot);
    t.(pages := t.pages[r.page := pg.(body := Put(pg.body, o, data))], dirty := t.dirty + {r.page})
  }

  /** The page writeSlot leaves: the slot area of the written page with `data` put at the slot's offset, every other page as it was. */
  lemma WrittenShape(t: Table, r: Rid, data: seq<byte>)
    requires TableInv(t) && Used(t, r.page, r.slot) && |data| == t.th.recordSize
    ensures r.slot < t.th.slotsPerPage && r.page in t.pages
    ensures SlotOffset(t.th, r.slot) + |data| <= |SlotArea(t, r.page)|
    ensures Written(t, r, data).th == t.th && Written(t, r, data).hdr0 == t.hdr0 && Geometry(Written(t, r, data))
    ensures Written(t, r, data).pages.Keys == t.pages.Keys
    ensures PageAt(Written(t, r, data), r.page).nextSlot == PageAt(t, r.page).nextSlot
    ensures Bitmap(Written(t, r, data), r.page) == Bitmap(t, r.page)
    ensures SlotArea(Written(t, r, data), r.page) == Put(SlotArea(t, r.page), SlotOffset(t.th, r.slot), data)
    ensures forall k :: k != r.page ==> PageAt(Written(t, r, data), k) == PageAt(t, k)
  {
    UsedBounds(t, r.page, r.slot);
    SlotFits(t.th, r.slot);
    var w := BitmapBytes(t.th.slotsPerPage);
    PutPast(PageAt(t, r.page).body, w + SlotOffset(t.th, r.slot), data, w);
  }

  /** writeSlot keeps the table good and changes no bitmap, `_nextSlot` or header. */
  lemma WrittenKeeps(t: Table, r: Rid, data: seq<byte>)
    requires TableInv(t) && Used(t, r.page, r.slot) && |data| == t.th.recordSize
    ensures TableInv(Written(t, r, data)) && Written(t, r, data).th == t.th
    ensures forall k: nat :: Bitmap(Written(t, r, data), k) == Bitmap(t, k) && PageAt(Written(t, r, data), k).nextSlot == PageAt(t, k).nextSlot
    ensures forall k: nat, s: nat :: Used(Written(t, r, data), k, s) == Used(t, k, s)
  {
    WrittenShape(t, r, data);
    var t' := Written(t, r, data);
    PageAtOk(t, r.page);
    assert PageAt(t', r.page).body[..BitmapBytes(t.th.slotsPerPage)] == Bitmap(t, r.page);
    forall k: nat
      ensures Bitmap(t', k) == Bitmap(t, k) && PageAt(t', k).nextSlot == PageAt(t, k).nextSlot
    {
    }
  }

  /** After writeSlot the written slot reads as `data`. */
  lemma ReadAfterWrite(t: Table, r: Rid, data: seq<byte>)
    requires TableInv(t) && Used(t, r.page, r.slot) && |data| == t.th.recordSize
    ensures Geometry(Written(t, r, data))
    ensures r.slot < t.th.slotsPerPage && SlotBytes(Written(t, r, data), r.page, r.slot) == data
  {
    WrittenShape(t, r, data);
    PutReads(SlotArea(t, r.page), SlotOffset(t.th, r.slot), data);
  }

  /** writeSlot leaves every other slot reading as before. */
  lemma WriteKeepsOthers(t: Table, r: Rid, data: seq<byte>)
    requires TableInv(t) && Used(t, r.page, r.slot) && |data| == t.th.recordSize
    ensures Geometry(Written(t, r, data))
    ensures forall k: nat, s: nat :: s < t.th.slotsPerPage && !(k == r.page && s == r.slot) ==>
      SlotBytes(Written(t, r, data), k, s) == SlotBytes(t, k, s)
  {
    WrittenShape(t, r, data);
    var t' := Written(t, r, data);
    forall k: nat, s: nat | s < t.th.slotsPerPage && !(k == r.page && s == r.slot)
      ensures SlotBytes(t', k, s) == SlotBytes(t, k, s)
    {
      SlotFits(t.th, s);
      if k == r.page {
        SlotsDisjoint(t.th, s, r.slot);
        PutOutside(SlotArea(t, k), SlotOffset(t.th, r.slot), data, SlotOffset(t.th, s), SlotOffset(t.th, s) + t.th.recordSize);
      } else {
        assert SlotArea(t', k) == SlotArea(t, k);
      }
    }
  }

  /** `insertRecord(data)`: getFreeSlot, then writeSlot of `data` into the slot it handed out. */
  function Insert(t: Table, fd: int, data: seq<byte>): (Table, Rid)
    requires TableInv(t) && |data| == t.th.recordSize
  {
    FreeSlotTakes(t, fd);
    FreeSlotKeeps(t, fd);
    var (t1, rid) := FreeSlot(t, fd);
    (Written(t1, rid, data), rid)
  }

  /**
   * insertRecord stores `data` in a slot that was free: afterwards that slot
   * is used and reads as `data`, every other slot is used or free as before,
   * and the table stays good.
   */
  lemma InsertStores(t: Table, fd: int, data: seq<byte>)
    requires TableInv(t) && |data| == t.th.recordSize
    ensures var (t', rid) := Insert(t, fd, data);
      && TableInv(t') && t'.th.slotsPerPage == t.th.slotsPerPage
      && rid.fd == fd && 1 <= rid.page && rid.slot < t.th.slotsPerPage && !Used(t, rid.page, rid.slot)
      && (forall k: nat, s: nat :: Used(t', k, s) <==> Used(t, k, s) || (k == rid.page && s == rid.slot))
      && SlotBytes(t', rid.page, rid.slot) == data
  {
    FreeSlotTakes(t, fd);
    FreeSlotKeeps(t, fd);
    var (t1, rid) := FreeSlot(t, fd);
    WrittenKeeps(t1, rid, data);
    ReadAfterWrite(t1, rid, data);
  }

  /** insertRecord leaves every other slot reading as before. */
  lemma InsertKeepsOthers(t: Table, fd: int, data: seq<byte>)
    requires TableInv(t) && |data| == t.th.recordSize
    ensures var (t', rid) := Insert(t, fd, data);
      && Geometry(t') && t'.th.slotsPerPage == t.th.slotsPerPage
      && (forall k: nat, s: nat :: s < t.th.slotsPerPage && !(k == rid.page && s == rid.slot) ==> SlotBytes(t', k, s) == SlotBytes(t, k, s))
  {
    FreeSlotTakes(t, fd);
    FreeSlotKeeps(t, fd);
    FreeSlotKeepsBytes(t, fd);
    var (t1, rid) := FreeSlot(t, fd);
    WriteKeepsOthers(t1, rid, data);
    var t' := Written(t1, rid, data);
    forall k: nat, s: nat | s < t.th.slotsPerPage && !(k == rid.page && s == rid.slot)
      ensures SlotBytes(t', k, s) == SlotBytes(t, k, s)
    {
      SameSlotBytes(t1, t, k, s);
    }
  }

  /** Two tables with the same layout whose page `k` has the same slot area read the same slots there. */
  lemma SameSlotBytes(t1: Table, t: Table, k: nat, s: nat)
    requires Geometry(t1) && Geometry(t) && t1.th.recordSize == t.th.recordSize && t1.th.slotsPerPage == t.th.slotsPerPage
    requires s < t.th.slotsPerPage && SlotArea(t1, k) == SlotArea(t, k)
    ensures SlotBytes(t1, k, s) == SlotBytes(t, k, s)
  {
  }

  /** insertRecord puts the record in the lowest free slot, in (page, slot) order. */
  lemma InsertTakesLowest(t: Table, fd: int, data: seq<byte>)
    requires TableInv(t) && |data| == t.th.recordSize
    ensures var rid := Insert(t, fd, data).1;
      forall k: nat, s: nat :: 1 <= k && s < t.th.slotsPerPage && !Used(t, k, s) ==> !Precedes(k, s, rid.page, rid.slot)
  {
    FreeSlotLowest(t, fd);
  }

  // ---------------------------------------------------------------------
  // Iteration

  /** `cend()`: slot `uint32_t(-1)` of the last data page. */
  function EndRid(t: Table, fd: int): Rid
  {
    Rid(fd, t.th.existsPageNum, NO_SLOT)
  }

  /**
   * `++it` with a bitmap view `width` bytes long and the later-page test
   * `npos < bound`: the next set bit after the current slot on the current
   * page if it is below `slotsPerPage`; the end iterator if this is the last
   * page; otherwise the first later page whose first set bit passes the test.
   */
  function NextWith(t: Table, r: Rid, width: nat, bound: nat): Rid
    requires Sized(t) && width <= BODY_SIZE
  {
    StepFrom(t, r, Scan(View(t, r.page, width), Wrap(r.slot + 1), true), width, bound)
  }

  /** `++it` once the scan of the current page has stopped at `pos`. */
  function StepFrom(t: Table, r: Rid, pos: nat, width: nat, bound: nat): Rid
    requires Sized(t) && width <= BODY_SIZE
  {
    if pos < t.th.slotsPerPage then r.(slot := pos)
    else if r.page == t.th.existsPageNum then r.(slot := NO_SLOT)
    else PagesFrom(t, r, r.page + 1, width, bound)
  }


  /** The `while (++npid <= _existsPageNum)` loop of `++it`, from page `npid` on. */
  function PagesFrom(t: Table, r: Rid, npid: nat, width: nat, bound: nat): Rid
    requires Sized(t) && width <= BODY_SIZE
    decreases t.th.existsPageNum + 1 - npid
  {
    if npid > t.th.existsPageNum then r
    else
      var npos := Scan(View(t, npid, width), 0, true);
      if npos < bound then Rid(r.fd, npid, npos)
      else if npid == t.th.existsPageNum then Rid(r.fd, npid, NO_SLOT)
      else PagesFrom(t, r, npid + 1, width, bound)
  }

  /** `ceil(recordSize, 8)`: the length of the bitmap view `++it` builds (as written). */
  function WideBytes(th: TableHeader): (w: nat)
    requires Shape(th)
    ensures w <= BODY_SIZE
  {
    BitmapBytes(th.recordSize)
  }

  /** `++it` as written: a view of `ceil(recordSize, 8)` bytes, and a later page's first set bit accepted only below `_existsPageNum`. */
  function NextAsWritten(t: Table, r: Rid): Rid
    requires Geometry(t)
  {
    NextWith(t, r, WideBytes(t.th), t.th.existsPageNum)
  }

  /** `++it` over the page's own bitmap, accepting a later page's first set bit below `slotsPerPage`. */
  function NextFixed(t: Table, r: Rid): Rid
    requires Geometry(t)
  {
    NextWith(t, r, BitmapBytes(t.th.slotsPerPage), t.th.slotsPerPage)
  }

  /** `cbegin()` with `++it` taken as `NextWith(width, bound)`: the end iterator of a table with no data page, else slot 0 of page 1 if used, else the record after it. */
  function BeginWith(t: Table, fd: int, width: nat, bound: nat): Rid
    requires Geometry(t) && width <= BODY_SIZE
  {
    if t.th.existsPageNum == 0 then EndRid(t, fd)
    else if Used(t, 1, 0) then Rid(fd, 1, 0)
    else NextWith(t, Rid(fd, 1, 0), width, bound)
  }

  function BeginAsWritten(t: Table, fd: int): Rid
    requires Geometry(t)
  {
    BeginWith(t, fd, WideBytes(t.th), t.th.existsPageNum)
  }

  function BeginFixed(t: Table, fd: int): Rid
    requires Geometry(t)
  {
    BeginWith(t, fd, BitmapBytes(t.th.slotsPerPage), t.th.slotsPerPage)
  }

  /** The slot `r` is followed by no used slot in (page, slot) order. */
  ghost predicate NoneAfter(t: Table, r: Rid)
    requires Geometry(t)
  {
    forall k: nat, s: nat :: Used(t, k, s) ==> !Precedes(r.page, r.slot, k, s)
  }

  /** `q` is the first used slot after `r` in (page, slot) order. */
  ghost predicate FirstAfter(t: Table, r: Rid, q: Rid)
    requires Geometry(t)
  {
    Used(t, q.page, q.slot) && Precedes(r.page, r.slot, q.page, q.slot)
    && forall k: nat, s: nat :: Used(t, k, s) && Precedes(r.page, r.slot, k, s) ==> !Precedes(k, s, q.page, q.slot)
  }

  /** Every used slot lies on a data page `1..existsPageNum` and below `slotsPerPage`. */
  ghost predicate Bounded(t: Table)
    requires Geometry(t)
  {
    forall k: nat, s: nat :: Used(t, k, s) ==> 1 <= k <= t.th.existsPageNum && s < t.th.slotsPerPage
  }

  lemma AllUsedBounded(t: Table)
    requires TableInv(t)
    ensures Bounded(t)
  {
    forall k: nat, s: nat | Used(t, k, s)
      ensures 1 <= k <= t.th.existsPageNum && s < t.th.slotsPerPage
    {
      UsedBounds(t, k, s);
    }
  }

  /** `q` is where a correct `++it` goes from `r`: the first used slot after it, or the end iterator when there is none. */
  ghost predicate Successor(t: Table, r: Rid, q: Rid)
    requires Geometry(t)
  {
    q.fd == r.fd && ((q == EndRid(t, r.fd) && NoneAfter(t, r)) || FirstAfter(t, r, q))
  }

  /** The later-page loop over the page's own bitmap finds the first used slot on pages `npid` and on, or the end. */
  lemma {:induction false} PagesFromFinds(t: Table, r: Rid, npid: nat)
    requires Geometry(t) && Bounded(t) && 1 <= r.page < npid <= t.th.existsPageNum
    requires forall k: nat, s: nat :: Used(t, k, s) && Precedes(r.page, r.slot, k, s) ==> k >= npid
    ensures Successor(t, r, PagesFrom(t, r, npid, BitmapBytes(t.th.slotsPerPage), t.th.slotsPerPage))
    decreases t.th.existsPageNum + 1 - npid
  {
    var n := t.th.slotsPerPage;
    var npos := Scan(Bitmap(t, npid), 0, true);
    if npos < n {
      forall k: nat, s: nat | Used(t, k, s) && k == npid && s < npos
        ensures false
      {
      }
    } else if npid == t.th.existsPageNum {
      forall k: nat, s: nat | Used(t, k, s) && Precedes(r.page, r.slot, k, s)
        ensures false
      {
      }
    } else {
      PagesFromFinds(t, r, npid + 1);
    }
  }

  /** When the scan of the current page stops below `slotsPerPage`, it stops at the next used slot. */
  lemma SamePageNext(t: Table, r: Rid, pos: nat)
    requires Geometry(t) && 1 <= r.page && r.slot < t.th.slotsPerPage
    requires pos == Scan(Bitmap(t, r.page), r.slot + 1, true) && pos < t.th.slotsPerPage
    ensures Successor(t, r, r.(slot := pos))
  {
    forall s: nat | Used(t, r.page, s) && r.slot < s < pos
      ensures false
    {
    }
  }

  /** When the scan of the current page finds nothing below `slotsPerPage`, every used slot after `r` is on a later page. */
  lemma SamePageDone(t: Table, r: Rid, pos: nat)
    requires Geometry(t) && Bounded(t) && 1 <= r.page && r.slot < t.th.slotsPerPage
    requires pos == Scan(Bitmap(t, r.page), r.slot + 1, true) && pos >= t.th.slotsPerPage
    ensures forall k: nat, s: nat :: Used(t, k, s) && Precedes(r.page, r.slot, k, s) ==> k > r.page
  {
    forall s: nat | Used(t, r.page, s) && r.slot < s
      ensures false
    {
    }
  }

  /** No used slot lies on a page after the last. */
  lemma PastLastNone(t: Table, r: Rid)
    requires Geometry(t) && Bounded(t) && r.page == t.th.existsPageNum
    requires forall k: nat, s: nat :: Used(t, k, s) && Precedes(r.page, r.slot, k, s) ==> k > r.page
    ensures Successor(t, r, EndRid(t, r.fd))
  {
    forall k: nat, s: nat | Used(t, k, s) && Precedes(r.page, r.slot, k, s)
      ensures false
    {
    }
  }

  /** The three ways `++it` can go, with the scan's result named. */
  lemma NextWithCases(t: Table, r: Rid, width: nat, bound: nat, pos: nat)
    requires Sized(t) && width <= BODY_SIZE
    requires pos == Scan(View(t, r.page, width), Wrap(r.slot + 1), true)
    ensures NextWith(t, r, width, bound) == if pos < t.th.slotsPerPage then r.(slot := pos)
      else if r.page == t.th.existsPageNum then EndRid(t, r.fd)
      else PagesFrom(t, r, r.page + 1, width, bound)
  {
  }

  /** One round of the later-page loop, with the scan's result named. */
  lemma PagesFromCases(t: Table, r: Rid, npid: nat, width: nat, bound: nat, npos: nat)
    requires Sized(t) && width <= BODY_SIZE && npid <= t.th.existsPageNum
    requires npos == Scan(View(t, npid, width), 0, true)
    ensures PagesFrom(t, r, npid, width, bound) == if npos < bound then Rid(r.fd, npid, npos)
      else if npid == t.th.existsPageNum then Rid(r.fd, npid, NO_SLOT)
      else PagesFrom(t, r, npid + 1, width, bound)
  {
  }

  /** The three ways `++it` over the page's own bitmap can go, from a slot below `slotsPerPage`. */
  lemma NextFixedCases(t: Table, r: Rid)
    requires Geometry(t) && r.slot < t.th.slotsPerPage
    ensures var n := t.th.slotsPerPage;
      var pos := Scan(Bitmap(t, r.page), r.slot + 1, true);
      NextFixed(t, r) == if pos < n then r.(slot := pos)
        else if r.page == t.th.existsPageNum then EndRid(t, r.fd)
        else PagesFrom(t, r, r.page + 1, BitmapBytes(n), n)
  {
    var n := t.th.slotsPerPage;
    NextWithCases(t, r, BitmapBytes(n), n, Scan(Bitmap(t, r.page), r.slot + 1, true));
  }

  /**
   * `++it` over the page's own bitmap steps from a slot to the first used
   * slot after it in (page, slot) order, or to the end iterator when there
   * is none: every record is visited once, in order.
   */
  lemma NextFixedFinds(t: Table, r: Rid)
    requires TableInv(t) && 1 <= r.page <= t.th.existsPageNum && r.slot < t.th.slotsPerPage
    ensures Successor(t, r, NextFixed(t, r))
  {
    AllUsedBounded(t);
    NextFixedStep(t, r);
  }

  lemma NextFixedStep(t: Table, r: Rid)
    requires Geometry(t) && Bounded(t) && 1 <= r.page <= t.th.existsPageNum && r.slot < t.th.slotsPerPage
    ensures Successor(t, r, NextFixed(t, r))
  {
    var n := t.th.slotsPerPage;
    var pos := Scan(Bitmap(t, r.page), r.slot + 1, true);
    NextFixedCases(t, r);
    if pos < n {
      SamePageNext(t, r, pos);
      SuccessorEq(t, r, r.(slot := pos), NextFixed(t, r));
    } else if r.page == t.th.existsPageNum {
      SamePageDone(t, r, pos);
      PastLastNone(t, r);
      SuccessorEq(t, r, EndRid(t, r.fd), NextFixed(t, r));
    } else {
      SamePageDone(t, r, pos);
      PagesFromFinds(t, r, r.page + 1);
      SuccessorEq(t, r, PagesFrom(t, r, r.page + 1, BitmapBytes(n), n), NextFixed(t, r));
    }
  }

  lemma SuccessorEq(t: Table, r: Rid, q: Rid, q': Rid)
    requires Geometry(t) && Successor(t, r, q) && q == q'
    ensures Successor(t, r, q')
  {
  }

  /** `cbegin()` over the page's own bitmap is the first used slot of the table, or the end iterator when there is none. */
  lemma BeginFixedFinds(t: Table, fd: int)
    requires TableInv(t)
    ensures var q := BeginFixed(t, fd);
      q.fd == fd
      && (q == EndRid(t, fd) ==> forall k: nat, s: nat :: !Used(t, k, s))
      && (q != EndRid(t, fd) ==> Used(t, q.page, q.slot) && forall k: nat, s: nat :: Used(t, k, s) ==> !Precedes(k, s, q.page, q.slot))
  {
    AllUsedBounded(t);
    BeginFixedStep(t, fd);
  }

  lemma BeginFixedStep(t: Table, fd: int)
    requires Geometry(t) && Bounded(t)
    ensures var q := BeginFixed(t, fd);
      q.fd == fd
      && (q == EndRid(t, fd) ==> forall k: nat, s: nat :: !Used(t, k, s))
      && (q != EndRid(t, fd) ==> Used(t, q.page, q.slot) && forall k: nat, s: nat :: Used(t, k, s) ==> !Precedes(k, s, q.page, q.slot))
  {
    if t.th.existsPageNum > 0 && !Used(t, 1, 0) {
      NextFixedStep(t, Rid(fd, 1, 0));
    }
  }


  /**
   * When `++it` as written agrees with the corrected one: its view is no
   * narrower than the bitmap, there are no more data pages than slots per
   * page, and the first used slot of every page after the first lies below
   * `existsPageNum`.
   */
  ghost predicate IterPre(t: Table)
    requires Geometry(t)
  {
    BitmapBytes(t.th.slotsPerPage) <= WideBytes(t.th)
    && t.th.existsPageNum <= t.th.slotsPerPage
    && forall k: nat :: 1 < k <= t.th.existsPageNum && Scan(Bitmap(t, k), 0, true) < t.th.slotsPerPage ==>
      Scan(Bitmap(t, k), 0, true) < t.th.existsPageNum
  }

  /** A scan of the wide view and a scan of the bitmap agree whenever either finds a slot below `slotsPerPage`. */
  lemma WideScanAgrees(t: Table, k: nat, from: nat)
    requires Geometry(t) && BitmapBytes(t.th.slotsPerPage) <= WideBytes(t.th)
    ensures var a := Scan(View(t, k, WideBytes(t.th)), from, true);
      var b := Scan(Bitmap(t, k), from, true);
      (a < t.th.slotsPerPage || b < t.th.slotsPerPage) ==> a == b
  {
    var wide := View(t, k, WideBytes(t.th));
    var w := BitmapBytes(t.th.slotsPerPage);
    ScanPrefix(wide, w, from, true);
    assert wide[..w] == Bitmap(t, k);
  }

  lemma {:induction false} PagesFromAgrees(t: Table, r: Rid, npid: nat)
    requires Geometry(t) && IterPre(t) && 2 <= npid
    ensures PagesFrom(t, r, npid, WideBytes(t.th), t.th.existsPageNum)
      == PagesFrom(t, r, npid, BitmapBytes(t.th.slotsPerPage), t.th.slotsPerPage)
    decreases t.th.existsPageNum + 1 - npid
  {
    if npid <= t.th.existsPageNum {
      WideScanAgrees(t, npid, 0);
      PagesFromAgrees(t, r, npid + 1);
    }
  }

  /** Under `IterPre`, `++it` as written is the corrected `++it`, so it too visits every record once, in order. */
  lemma NextAgrees(t: Table, r: Rid)
    requires Geometry(t) && IterPre(t) && 1 <= r.page
    ensures NextAsWritten(t, r) == NextFixed(t, r)
  {
    var n := t.th.slotsPerPage;
    var from := Wrap(r.slot + 1);
    WideScanAgrees(t, r.page, from);
    if r.page < t.th.existsPageNum {
      PagesFromAgrees(t, r, r.page + 1);
    }
    NextWithAgrees(t, r, WideBytes(t.th), t.th.existsPageNum, BitmapBytes(n), n);
  }

  /** Two settings of `++it` agree when their scans of the current page agree below `slotsPerPage` and their later-page loops agree. */
  lemma NextWithAgrees(t: Table, r: Rid, w1: nat, b1: nat, w2: nat, b2: nat)
    requires Sized(t) && w1 <= BODY_SIZE && w2 <= BODY_SIZE
    requires var a := Scan(View(t, r.page, w1), Wrap(r.slot + 1), true);
      var b := Scan(View(t, r.page, w2), Wrap(r.slot + 1), true);
      (a < t.th.slotsPerPage || b < t.th.slotsPerPage) ==> a == b
    requires r.page < t.th.existsPageNum ==> PagesFrom(t, r, r.page + 1, w1, b1) == PagesFrom(t, r, r.page + 1, w2, b2)
    ensures NextWith(t, r, w1, b1) == NextWith(t, r, w2, b2)
  {
    var a := Scan(View(t, r.page, w1), Wrap(r.slot + 1), true);
    var b := Scan(View(t, r.page, w2), Wrap(r.slot + 1), true);
    StepsAgree(t, r, a, w1, b1, b, w2, b2);
  }

  lemma StepsAgree(t: Table, r: Rid, a: nat, w1: nat, b1: nat, b: nat, w2: nat, b2: nat)
    requires Sized(t) && w1 <= BODY_SIZE && w2 <= BODY_SIZE
    requires (a < t.th.slotsPerPage || b < t.th.slotsPerPage) ==> a == b
    requires r.page < t.th.existsPageNum ==> PagesFrom(t, r, r.page + 1, w1, b1) == PagesFrom(t, r, r.page + 1, w2, b2)
    ensures StepFrom(t, r, a, w1, b1) == StepFrom(t, r, b, w2, b2)
  {
  }

  /** Under `IterPre`, `cbegin()` as written is the corrected `cbegin()`. */
  lemma BeginAgrees(t: Table, fd: int)
    requires Geometry(t) && IterPre(t)
    ensures BeginAsWritten(t, fd) == BeginFixed(t, fd)
  {
    NextAgrees(t, Rid(fd, 1, 0));
  }

  /** Under `IterPre`, `++it` as written goes to the first record after the current one, or to `cend()`. */
  lemma AsWrittenFinds(t: Table, r: Rid)
    requires TableInv(t) && IterPre(t) && 1 <= r.page <= t.th.existsPageNum && r.slot < t.th.slotsPerPage
    ensures Successor(t, r, NextAsWritten(t, r))
  {
    NextAgrees(t, r);
    NextFixedFinds(t, r);
  }

  /**
   * The test program's table (320-byte records, 12 slots a page, at most
   * nine data pages) meets `IterPre` when each page after the first holds a
   * record in slot 0 or 1.
   */
  lemma TestConfigIterPre(t: Table)
    requires TableInv(t) && t.th.recordSize == 320 && t.th.existsPageNum <= 9
    requires forall k: nat :: 2 <= k <= t.th.existsPageNum ==> Used(t, k, 0) || Used(t, k, 1)
    ensures IterPre(t)
  {
    assert t.th.slotsPerPage == 12;
    assert BitmapBytes(12) == 2 && WideBytes(t.th) == 40;
    forall k: nat | 1 < k <= t.th.existsPageNum
      ensures Scan(Bitmap(t, k), 0, true) <= 1
    {
      assert Used(t, k, 0) || Used(t, k, 1);
      if BitAt(Bitmap(t, k), 0) {
        ScanStopsAt(Bitmap(t, k), 0, 0);
      } else {
        ScanStopsAt(Bitmap(t, k), 0, 1);
      }
    }
  }

  // ---------------------------------------------------------------------
  // Where `++it` as written goes wrong

  /** A table of 1-byte records (3636 slots per page) whose one data page holds records in slots 0 and 9. */
  function NarrowTable(): Table
  {
    var th := TableHeader(1, 1, 3636, 1);
    Table(th, th, map[1 := DataPage(1, Filled(BODY_SIZE, 0)[0 := 0x80][1 := 0x40])], {})
  }

  lemma NarrowTableOk()
    ensures TableInv(NarrowTable())
    ensures Used(NarrowTable(), 1, 0) && Used(NarrowTable(), 1, 9) && !Used(NarrowTable(), 1, 8)
  {
    var t := NarrowTable();
    SlotsPerPageNotMaximal();
    ShapeOf(t.th);
    CeilBytes(3636);
    var bm := t.pages[1].body[..BitmapBytes(3636)];
    forall s: nat | 3636 <= s < BYTE_IN_BITS * |bm|
      ensures !BitAt(bm, s)
    {
      assert bm[WhichByte(s)] == 0;
    }
    assert PageOk(t.pages[1], 3636);
  }

  /**
   * `++it` as written views `ceil(1, 8) = 1` byte of a bitmap that is 455
   * bytes long: from slot 0 its scan runs off the view and stops at 8, so
   * it yields slot 8, which holds no record, and the record in slot 9 is
   * reached only after it.  The corrected step yields slot 9.
   */
  lemma NarrowViewCounterexample()
    ensures TableInv(NarrowTable())
    ensures NextAsWritten(NarrowTable(), Rid(0, 1, 0)) == Rid(0, 1, 8) && !Used(NarrowTable(), 1, 8)
    ensures NextFixed(NarrowTable(), Rid(0, 1, 0)) == Rid(0, 1, 9) && Used(NarrowTable(), 1, 9)
  {
    var t := NarrowTable();
    NarrowTableOk();
    CeilBytes(1);
    var narrow := View(t, 1, WideBytes(t.th));
    assert narrow == [0x80];
    forall j | 1 <= j < 8
      ensures !BitAt(narrow, j)
    {
      MaskIsOneBit(j);
    }
    ScanPasses(narrow, 1, 8);
    var bm := Bitmap(t, 1);
    forall j | 1 <= j < 9
      ensures !BitAt(bm, j)
    {
      MaskIsOneBit(j);
    }
    ScanStopsAt(bm, 1, 9);
    NextWithCases(t, Rid(0, 1, 0), WideBytes(t.th), 1, 8);
    NextWithCases(t, Rid(0, 1, 0), BitmapBytes(3636), 3636, 9);
  }

  /** A table of 320-byte records (12 slots per page) with two data pages: page 1 holds slot 0, page 2 holds slot 5. */
  function TwoPageTable(): Table
  {
    var th := TableHeader(320, 2, 12, 1);
    Table(th, th, map[1 := DataPage(1, Filled(BODY_SIZE, 0)[0 := 0x80]), 2 := DataPage(0, Filled(BODY_SIZE, 0)[0 := 0x04])], {})
  }

  lemma TwoPageTableOk()
    ensures TableInv(TwoPageTable())
    ensures Used(TwoPageTable(), 1, 0) && Used(TwoPageTable(), 2, 5)
  {
    var t := TwoPageTable();
    assert (BYTE_IN_BITS * 320 + 1) % U32 == 2561;
    assert CalSlotsPerPage(320) == 12;
    ShapeOf(t.th);
    CeilBytes(12);
    forall k | k in t.pages
      ensures PageOk(t.pages[k], 12)
    {
      var bm := t.pages[k].body[..2];
      forall s: nat | 12 <= s < 16
        ensures !BitAt(bm, s)
      {
        assert bm[WhichByte(s)] == 0;
      }
      MaskIsOneBit(0);
      MaskIsOneBit(1);
    }
    MaskIsOneBit(5);
  }

  /**
   * `++it` as written accepts a later page's first record only when its slot
   * is below `_existsPageNum`: from the record in page 1 it passes over page
   * 2, whose one record is in slot 5, and yields the end iterator.
   */
  lemma PageBoundCounterexample()
    ensures TableInv(TwoPageTable())
    ensures NextAsWritten(TwoPageTable(), Rid(0, 1, 0)) == EndRid(TwoPageTable(), 0) && Used(TwoPageTable(), 2, 5)
  {
    var t := TwoPageTable();
    TwoPageTableOk();
    CeilBytes(320);
    var r := Rid(0, 1, 0);
    var wide := WideBytes(t.th);
    assert wide == 40;
    var first, second := View(t, 1, wide), View(t, 2, wide);
    forall j | 1 <= j < 12
      ensures !BitAt(first, j)
    {
      MaskIsOneBit(j);
    }
    forall j | 0 <= j < 5
      ensures !BitAt(second, j)
    {
      MaskIsOneBit(j);
    }
    MaskIsOneBit(5);
    ScanPasses(first, 1, 12);
    ScanStopsAt(second, 0, 5);
    assert Wrap(r.slot + 1) == 1;
    NextWithCases(t, r, wide, 2, Scan(first, 1, true));
    PagesFromCases(t, r, 2, wide, 2, 5);
  }

  /** On the same table the corrected step goes from the record in page 1 to the record in slot 5 of page 2. */
  lemma PageBoundFixed()
    ensures NextFixed(TwoPageTable(), Rid(0, 1, 0)) == Rid(0, 2, 5) && Used(TwoPageTable(), 2, 5)
  {
    var t := TwoPageTable();
    TwoPageTableOk();
    var r := Rid(0, 1, 0);
    forall j | 1 <= j < 12
      ensures !BitAt(Bitmap(t, 1), j)
    {
      MaskIsOneBit(j);
    }
    forall j | 0 <= j < 5
      ensures !BitAt(Bitmap(t, 2), j)
    {
      MaskIsOneBit(j);
    }
    MaskIsOneBit(5);
    ScanPasses(Bitmap(t, 1), 1, 12);
    ScanStopsAt(Bitmap(t, 2), 0, 5);
    NextWithCases(t, r, BitmapBytes(12), 12, Scan(Bitmap(t, 1), 1, true));
  }

  // ---------------------------------------------------------------------
  // Creating and opening a table

  /**
   * `creatTable` as written: refuses a record size above `MAXRECORDSIZE`,
   * then writes a header with no data page, `_nextPage = 1` and
   * `calSlotsPerPage(recordSize)` slots to page 0 and marks it dirty.
   */
  function CreatTable(recordSize: nat): (r: Option<Table>)
    ensures r.None? <==> recordSize > MAX_RECORD_SIZE
  {
    if recordSize > MAX_RECORD_SIZE then None
    else
      var th := TableHeader(recordSize, 0, CalSlotsPerPage(recordSize), 1);
      Some(Table(th, th, map[], {0}))
  }

  /** `openTable`: the header read back from page 0, refused when its record size is 0; nothing is dirty yet. */
  function OpenTable(hdr: TableHeader, pages: map<nat, DataPage>): (r: Option<Table>)
    ensures r.None? <==> hdr.recordSize == 0
  {
    if hdr.recordSize == 0 then None else Some(Table(hdr, hdr, pages, {}))
  }

  /** `creatTable` with the record size `openTable` demands checked as well: a zero size is refused. */
  function CreatTableChecked(recordSize: nat): (r: Option<Table>)
    ensures r.None? <==> recordSize == 0 || recordSize > MAX_RECORD_SIZE
  {
    if recordSize == 0 then None else CreatTable(recordSize)
  }

  /** A created table is good, holds no record, has no data page and will allocate page 1 first. */
  lemma CreatedTableEmpty(recordSize: nat)
    requires CreatTableChecked(recordSize).Some?
    ensures var t := CreatTableChecked(recordSize).value;
      TableInv(t) && t.th.recordSize == recordSize && t.th.slotsPerPage == CalSlotsPerPage(recordSize)
      && t.th.existsPageNum == 0 && t.th.nextPage == 1 && 0 in t.dirty
      && forall k: nat, s: nat :: !Used(t, k, s)
  {
    var t := CreatTableChecked(recordSize).value;
    ShapeOf(t.th);
    forall k: nat, s: nat | Used(t, k, s)
      ensures false
    {
      UsedBounds(t, k, s);
    }
  }

  /** Once every page is written back, opening a good table gives back the same table with nothing dirty. */
  lemma ReopenRoundTrip(t: Table)
    requires TableInv(t)
    ensures OpenTable(t.hdr0, t.pages) == Some(t.(dirty := {}))
  {
  }

  /**
   * `creatTable(0)` succeeds, giving 32729 slots whose bitmap fills the
   * whole page body, but the table it writes cannot be opened again.
   */
  lemma ZeroSizeCounterexample()
    ensures CreatTable(0).Some? && CreatTable(0).value.th.slotsPerPage == 32729
    ensures BitmapBytes(32729) == BODY_SIZE
    ensures OpenTable(CreatTable(0).value.hdr0, CreatTable(0).value.pages).None?
  {
    assert (BYTE_IN_BITS * 0 + 1) % U32 == 1;
    CeilBytes(32729);
  }

  /** Every table the checked `creatTable` makes can be opened again. */
  lemma CreatedReopens(recordSize: nat)
    requires CreatTableChecked(recordSize).Some?
    ensures var t := CreatTableChecked(recordSize).value;
      OpenTable(t.hdr0, t.pages) == Some(t.(dirty := {}))
  {
    CreatedTableEmpty(recordSize);
    ReopenRoundTrip(CreatTableChecked(recordSize).value);
  }

  // ---------------------------------------------------------------------
  // The manager of one open table

  /**
   * `RecordManager`: the file's descriptor, the manager's copy of the table
   * header, and the table's pages as the buffer pool shows them (page 0's
   * header, the data pages, and the pages marked dirty).
   */
  class RecordManager
  {
    const fd: int
    var th: TableHeader
    var hdr0: TableHeader
    var pages: map<nat, DataPage>
    var dirty: set<nat>

    function State(): Table
      reads this
    {
      Table(th, hdr0, pages, dirty)
    }

    ghost predicate Valid()
      reads this
    {
      TableInv(State())
    }

    constructor(fd: int, t: Table)
      ensures this.fd == fd && State() == t
    {
      this.fd := fd;
      th, hdr0, pages, dirty := t.th, t.hdr0, t.pages, t.dirty;
    }

    /** `setFileHeader`: sets both copies of the page counts, marking page 0 dirty when its copy changes. */
    method SetFileHeader(e: nat, np: nat)
      modifies this
      ensures State() == SetHeader(old(State()), e, np)
    {
      th := th.(existsPageNum := e, nextPage := np);
      if hdr0.existsPageNum != e || hdr0.nextPage != np {
        dirty := dirty + {0};
      }
      hdr0 := hdr0.(existsPageNum := e, nextPage := np);
    }

    /**
     * `getFreeSlot`: claims the lowest free slot, on `_nextPage` or the
     * first later page with room; a later page becomes `_nextPage`.
     */
    method GetFreeSlot() returns (rid: Rid)
      requires Valid()
      modifies this
      ensures Valid()
      ensures (State(), rid) == FreeSlot(old(State()), fd)
    {
      ghost var t0 := State();
      FreeSlotKeeps(t0, fd);
      RoomFromNext(t0);
      if th.existsPageNum == 0 && th.nextPage == 1 {
        SetFileHeader(1, 1);
      }
      ghost var t1 := State();
      assert t1 == Start(t0);
      ghost var room := RoomPage(t0);
      var n := th.slotsPerPage;
      var k := th.nextPage;
      if PageAt(State(), k).nextSlot >= n {
        // the loop `while (true)` over the pages after `_nextPage`
        while true
          invariant State() == t1 && th.nextPage <= k < room
          decreases room - k
        {
          k := k + 1;
          if PageAt(State(), k).nextSlot < n {
            break;
          }
          RoomIsLater(t0, k);
        }
      }
      RoomFound(t0, k);
      FreeSlotSteps(t0, fd);
      var pg := PageAt(State(), k);
      rid := Rid(fd, k, pg.nextSlot);
      pages := pages[k := Claim(pg, n)];
      dirty := dirty + {k};
      assert State() == t1.(pages := t1.pages[k := Claim(pg, n)], dirty := t1.dirty + {k});
      if k != th.nextPage {
        SetFileHeader(Max(th.existsPageNum, k), k);
      }
    }

    /** `deleteSlot`: frees the slot of a record, which must be present. */
    method DeleteSlot(r: Rid)
      requires Valid() && r.fd == fd && Used(State(), r.page, r.slot)
      modifies this
      ensures Valid()
      ensures State() == Deleted(old(State()), r)
    {
      DeletedKeeps(State(), r);
      var pg := PageAt(State(), r.page);
      pages := pages[r.page := Unclaim(pg, th.slotsPerPage, r.slot)];
      dirty := dirty + {r.page};
      SetFileHeader(th.existsPageNum, Min(th.nextPage, r.page));
    }

    /** `writeSlot`: copies `recordSize` bytes into the slot of a record, which must be present. */
    method WriteSlot(r: Rid, data: seq<byte>)
      requires Valid() && r.fd == fd && 1 <= r.page && Used(State(), r.page, r.slot) && |data| == th.recordSize
      modifies this
      ensures Valid()
      ensures State() == Written(old(State()), r, data)
    {
      WrittenKeeps(State(), r, data);
      UsedBounds(State(), r.page, r.slot);
      SlotFits(th, r.slot);
      var pg := PageAt(State(), r.page);
      dirty := dirty + {r.page};
      pages := pages[r.page := pg.(body := Put(pg.body, BitmapBytes(th.slotsPerPage) + SlotOffset(th, r.slot), data))];
    }

    /**
     * `readSlot`, and so `getRecordPointer` and `getRecord`: the
     * `recordSize` bytes in the slot of a record, which must be present.
     */
    function ReadSlot(r: Rid): (d: seq<byte>)
      reads this
      requires Valid() && r.fd == fd && 1 <= r.page && Used(State(), r.page, r.slot)
      ensures |d| == th.recordSize
    {
      UsedBounds(State(), r.page, r.slot);
      SlotBytes(State(), r.page, r.slot)
    }

    /** `isRecord`: the slot's bit in its page's bitmap; a set bit is always a slot of an existing data page. */
    predicate IsRecord(r: Rid)
      reads this
      requires Valid() && r.fd == fd && 1 <= r.page && r.slot < BYTE_IN_BITS * BitmapBytes(th.slotsPerPage)
      ensures IsRecord(r) ==> r.page <= th.existsPageNum && r.slot < th.slotsPerPage
    {
      var b := Used(State(), r.page, r.slot);
      if b then UsedBounds(State(), r.page, r.slot); b else b
    }

    /** `insertRecord`: claims a free slot and writes `data` into it. */
    method InsertRecord(data: seq<byte>) returns (rid: Rid)
      requires Valid() && |data| == th.recordSize
      modifies this
      ensures Valid()
      ensures (State(), rid) == Insert(old(State()), fd, data)
    {
      ghost var t0 := State();
      FreeSlotTakes(t0, fd);
      FreeSlotKeeps(t0, fd);
      rid := GetFreeSlot();
      WriteSlot(rid, data);
    }

    /** `deleteRecord`. */
    method DeleteRecord(r: Rid)
      requires Valid() && r.fd == fd && Used(State(), r.page, r.slot)
      modifies this
      ensures Valid()
      ensures State() == Deleted(old(State()), r)
    {
      DeleteSlot(r);
    }

    /**
     * `flush(pageNum, release)` on the pool `pm` that holds the table's
     * pages.  Page number `uint32_t(-1)` flushes every page of the file;
     * any other page is written back (and, with `release`, dropped from the
     * pool) only when it is resident.  No page's bytes change as readers see
     * them.
     */
    method Flush(pm: PagedFile.PageManager, pageNum: nat, release: bool)
      requires pm.Valid() && pageNum < U32
      modifies pm, pm.frames
      ensures pm.Valid()
      ensures forall q :: pm.Logical(q) == old(pm.Logical(q))
      ensures pageNum == NO_SLOT ==> pm.State() == PagedFile.FlushFd(old(pm.State()), fd, release, old(pm.used))
      ensures pageNum != NO_SLOT && old(PagedFile.Pid(fd, pageNum) !in pm.index) ==> pm.State() == old(pm.State())
      ensures pageNum != NO_SLOT && old(PagedFile.Pid(fd, pageNum) in pm.index) ==>
        && PagedFile.DiskPage(pm.disk, PagedFile.Pid(fd, pageNum)) == old(pm.Logical(PagedFile.Pid(fd, pageNum)))
        && (PagedFile.Pid(fd, pageNum) in pm.index <==> !release)
      ensures pageNum != NO_SLOT && old(PagedFile.Pid(fd, pageNum) in pm.index) ==>
        var f := old(pm.index[PagedFile.Pid(fd, pageNum)]);
        var s1 := PagedFile.WriteBackFrame(PagedFile.Promote(old(pm.State()), f), f);
        pm.State() == if release then PagedFile.Release(s1, f) else s1
    {
      var p := PagedFile.Pid(fd, pageNum);
      if pageNum == NO_SLOT {
        PagedFile.FlushFdDone(pm.capacity, pm.State(), fd, release);
        pm.FlushAllByFd(fd, release);
      } else {
        var cached := pm.IsInCache(p);
        if cached {
          var f := pm.GetPage(p);
          PagedFile.WriteBackShowsContent(pm.capacity, pm.State(), f);
          pm.Flush(f, release);
        }
      }
    }

    /** `cbegin()`, with the corrected `++it`: the first record of the table, or `cend()` when there is none. */
    method CBegin() returns (it: Iterator)
      requires Valid()
      ensures fresh(it) && it.rm == this && it.r == BeginFixed(State(), fd)
    {
      if th.existsPageNum == 0 {
        it := CEnd();
        return;
      }
      var r := Rid(fd, 1, 0);
      it := new Iterator(this, r);
      if !IsRecord(r) {
        it.Next();
      }
    }

    /** `cend()`: slot `uint32_t(-1)` of the last data page. */
    method CEnd() returns (it: Iterator)
      ensures fresh(it) && it.rm == this && it.r == EndRid(State(), fd)
    {
      it := new Iterator(this, Rid(fd, th.existsPageNum, NO_SLOT));
    }

    /** `updateRecord`. */
    method UpdateRecord(r: Rid, data: seq<byte>)
      requires Valid() && r.fd == fd && 1 <= r.page && Used(State(), r.page, r.slot) && |data| == th.recordSize
      modifies this
      ensures Valid()
      ensures State() == Written(old(State()), r, data)
    {
      WriteSlot(r, data);
    }
  }

  /** `RecordManager::Iterator`: a table and a position in it. */
  class Iterator
  {
    const rm: RecordManager
    var r: Rid

    constructor(rm: RecordManager, r: Rid)
      ensures this.rm == rm && this.r == r
    {
      this.rm := rm;
      this.r := r;
    }

    /**
     * `++it`, scanning each page's own bitmap and accepting a later page's
     * first set bit below `slotsPerPage` (the corrected step; `NextAgrees`
     * says when the step as written is the same).
     */
    method Next()
      requires Geometry(rm.State())
      modifies this
      ensures r == NextFixed(rm.State(), old(r))
    {
      var t := rm.State();
      var n := t.th.slotsPerPage;
      var w := BitmapBytes(n);
      var e := t.th.existsPageNum;
      ghost var goal := NextFixed(t, r);
      var pos := Scan(View(t, r.page, w), Wrap(r.slot + 1), true);
      NextWithCases(t, r, w, n, pos);
      if pos < n {
        r := r.(slot := pos);
      } else if r.page == e {
        r := r.(slot := NO_SLOT);
      } else {
        ghost var r0 := r;
        var npid := r.page + 1;
        while npid <= e
          invariant r == r0 && PagesFrom(t, r0, npid, w, n) == goal
          decreases e + 1 - npid
        {
          var npos := Scan(View(t, npid, w), 0, true);
          PagesFromCases(t, r0, npid, w, n, npos);
          if npos < n {
            r := Rid(r.fd, npid, npos);
            break;
          } else if npid == e {
            r := Rid(r.fd, npid, NO_SLOT);
            break;
          }
          npid := npid + 1;
        }
      }
    }
  }
}

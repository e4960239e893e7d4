/**
 * The page buffer pool of include/pagedFile.h: `PageManager`, a fixed
 * array of `CACHESIZE` page frames in front of the open files.
 *
 * Resident frames sit in an LRU list (`used`, most recently used first)
 * with an index from page id to frame (`index`); unused frames sit in a
 * pool that hands out its lowest frame first (`free`, the min-heap ordered
 * by frame address).  The files behind the descriptors are the abstract
 * `disk`: whole pages keyed by descriptor and byte offset, a page never
 * written reading as zeros (the zero-length read past end of file).
 *
 * The logical content of a page is its frame's bytes while it is resident
 * and its disk bytes otherwise.  No operation of the pool changes the
 * logical content of any page; only `Write` (a caller storing into a
 * frame and marking it dirty) does.
 */
module PagedFile {
  import opened BitMaps

  /** A page is 4096 bytes. */
  const PAGESIZE: nat := 4096

  /** `Pid`: a page of an open file. */
  datatype Pid = Pid(fd: int, pageNum: nat)

  /** Where a page lives on disk: descriptor and byte offset. */
  datatype Addr = Addr(fd: int, offset: nat)

  /** `Page`: a frame's bound page, its bytes, and its dirty flag. */
  datatype Frame = Frame(id: Pid, data: seq<byte>, dirty: bool)

  /** The outcome of `readFromDisk`: the byte count `read` returned and the bytes. */
  datatype ReadResult = ReadResult(count: nat, bytes: seq<byte>)

  type Disk = map<Addr, seq<byte>>

  /** The bytes of a page that was never written. */
  const ZERO_PAGE: seq<byte> := Filled(PAGESIZE, 0)

  function ZeroPage(): (z: seq<byte>)
    ensures |z| == PAGESIZE
  {
    ZERO_PAGE
  }

  /**
   * The byte offset of a page as include/pagedFile.h:76 and 85 compute it:
   * `pageNum * PAGESIZE` in 32-bit unsigned arithmetic.
   */
  function ByteOffsetAsWritten(pageNum: nat): nat
    requires pageNum < U32
  {
    (pageNum * PAGESIZE) % U32
  }

  /** With the 32-bit product, page 2^20 and page 0 share offset 0. */
  lemma ByteOffsetAsWrittenAliases()
    ensures ByteOffsetAsWritten(0x10_0000) == ByteOffsetAsWritten(0) == 0
  {
  }

  /** The byte offset computed without wrap-around (in `off_t`), as `lseek` needs it. */
  function ByteOffset(pageNum: nat): nat
  {
    pageNum * PAGESIZE
  }

  /** Different pages of a file occupy disjoint byte ranges. */
  lemma ByteOffsetsDisjoint(a: nat, b: nat)
    requires a != b
    ensures ByteOffset(a) + PAGESIZE <= ByteOffset(b) || ByteOffset(b) + PAGESIZE <= ByteOffset(a)
  {
    if a < b {
      assert ByteOffset(b) - ByteOffset(a) == (b - a) * PAGESIZE;
    } else {
      assert ByteOffset(a) - ByteOffset(b) == (a - b) * PAGESIZE;
    }
  }

  function AddrOf(p: Pid): Addr
  {
    Addr(p.fd, ByteOffset(p.pageNum))
  }

  /** Different pages never share a disk address. */
  lemma AddrOfInjective(p: Pid, q: Pid)
    ensures AddrOf(p) == AddrOf(q) ==> p == q
  {
    if p != q && p.fd == q.fd {
      ByteOffsetsDisjoint(p.pageNum, q.pageNum);
    }
  }

  /** Every page stored on disk is a whole page, so `read` returns 0 or `PAGESIZE` bytes. */
  ghost predicate WholePages(disk: Disk)
  {
    forall a :: a in disk ==> |disk[a]| == PAGESIZE
  }

  /** `readFromDisk`: `read` of `PAGESIZE` bytes at the page's offset; 0 bytes past end of file. */
  function ReadFromDisk(disk: Disk, p: Pid): (r: ReadResult)
    requires WholePages(disk)
    ensures r.count == 0 || r.count == PAGESIZE
    ensures r.count == |r.bytes|
  {
    if AddrOf(p) in disk then ReadResult(PAGESIZE, disk[AddrOf(p)]) else ReadResult(0, [])
  }

  /** The bytes `getPage` leaves in a freshly loaded frame: disk bytes, or zeros when the read returned 0. */
  function DiskPage(disk: Disk, p: Pid): seq<byte>
  {
    if AddrOf(p) in disk then disk[AddrOf(p)] else ZeroPage()
  }

  /** `writeToDisk` on a frame: a dirty frame is written at its page's offset and becomes clean. */
  function WriteBack(disk: Disk, fr: Frame): (Disk, Frame)
  {
    if fr.dirty then (disk[AddrOf(fr.id) := fr.data], fr.(dirty := false)) else (disk, fr)
  }

  /** A written-back frame is clean and on disk, so writing it back again changes nothing. */
  lemma WriteBackIdempotent(disk: Disk, fr: Frame)
    ensures !WriteBack(disk, fr).1.dirty
    ensures WriteBack(disk, fr).1.data == fr.data && WriteBack(disk, fr).1.id == fr.id
    ensures fr.dirty ==> DiskPage(WriteBack(disk, fr).0, fr.id) == fr.data
    ensures WriteBack(WriteBack(disk, fr).0, WriteBack(disk, fr).1) == WriteBack(disk, fr)
  {
  }

  /** `CACHESIZE`: the number of frames of the pool in sqlight.h. */
  const CACHESIZE: nat := 8192

  /** No element of `s` occurs twice: the head is not in the tail, which has no repeats either. */
  ghost predicate Distinct(s: seq<nat>)
    decreases |s|
  {
    s == [] || (s[0] !in s[1..] && Distinct(s[1..]))
  }

  /** A new head on a list without repeats keeps it without repeats. */
  lemma DistinctCons(x: nat, s: seq<nat>)
    requires Distinct(s) && x !in s
    ensures Distinct([x] + s)
  {
    assert ([x] + s)[1..] == s;
  }

  /** A prefix of a list without repeats has none either. */
  lemma {:induction false} DistinctTake(s: seq<nat>, j: nat)
    requires Distinct(s) && j <= |s|
    ensures Distinct(s[..j])
    decreases j
  {
    if j > 0 {
      DistinctTake(s[1..], j - 1);
      assert s[..j][1..] == s[1..][..j - 1];
      assert forall y :: y in s[1..][..j - 1] ==> y in s[1..];
    }
  }

  /** `s` with `x` erased (list `erase` of the node holding `x`). */
  function Without(s: seq<nat>, x: nat): (r: seq<nat>)
    ensures forall y :: y in r <==> y in s && y != x
    ensures x !in s ==> r == s
  {
    if s == [] then []
    else if s[0] == x then Without(s[1..], x)
    else [s[0]] + Without(s[1..], x)
  }

  /** Erasing from a list without repeats keeps it without repeats and removes one entry. */
  lemma {:induction false} WithoutDistinct(s: seq<nat>, x: nat)
    requires Distinct(s)
    ensures Distinct(Without(s, x))
    ensures x in s ==> |Without(s, x)| == |s| - 1
  {
    if s != [] {
      assert Distinct(s[1..]);
      WithoutDistinct(s[1..], x);
      if s[0] != x {
        assert s[0] !in s[1..];
        DistinctCons(s[0], Without(s[1..], x));
      }
    }
  }

  /** In a list without repeats, the entry at position `i` occurs neither before nor after it. */
  lemma {:induction false} DistinctAt(s: seq<nat>, i: nat)
    requires Distinct(s) && i < |s|
    ensures s[i] !in s[..i] && s[i] !in s[i + 1..]
    decreases i
  {
    if i > 0 {
      var t := s[1..];
      DistinctAt(t, i - 1);
      assert t[i - 1] == s[i] && s[i] in t;
      assert t[i..] == s[i + 1..];
      assert s[..i] == [s[0]] + t[..i - 1];
    }
  }

  /** Erasing an entry that occurs once, between `a` and `b`, leaves `a` followed by `b`. */
  lemma {:induction false} WithoutMiddle(a: seq<nat>, x: nat, b: seq<nat>)
    requires x !in a && x !in b
    ensures Without(a + [x] + b, x) == a + b
    decreases |a|
  {
    if a == [] {
      assert a + [x] + b == [x] + b;
      assert ([x] + b)[1..] == b;
    } else {
      WithoutMiddle(a[1..], x, b);
      assert (a + [x] + b)[0] == a[0];
      assert (a + [x] + b)[1..] == a[1..] + [x] + b;
      assert a + b == [a[0]] + (a[1..] + b);
    }
  }

  /** In a list without repeats, erasing the entry at position `i` is cutting it out. */
  lemma WithoutAt(s: seq<nat>, i: nat)
    requires Distinct(s) && i < |s|
    ensures Without(s, s[i]) == s[..i] + s[i + 1..]
  {
    DistinctAt(s, i);
    assert s == s[..i] + [s[i]] + s[i + 1..];
    WithoutMiddle(s[..i], s[i], s[i + 1..]);
  }

  /** Erasing the last element of a list without repeats is dropping it. */
  lemma WithoutLast(s: seq<nat>)
    requires Distinct(s) && s != []
    ensures Without(s, s[|s| - 1]) == s[..|s| - 1]
  {
    WithoutAt(s, |s| - 1);
  }

  /** The frames `0 .. n-1`. */
  function AllFrames(n: nat): (r: set<nat>)
    ensures forall f: nat :: f in r <==> f < n
    ensures |r| == n
  {
    if n == 0 then {} else AllFrames(n - 1) + {n - 1}
  }

  /** A sequence without repeats has as many distinct elements as entries. */
  lemma {:induction false} DistinctCard(s: seq<nat>)
    requires Distinct(s)
    ensures |set i | 0 <= i < |s| :: s[i]| == |s|
  {
    if s != [] {
      var tail := s[1..];
      DistinctCard(tail);
      assert (set i | 0 <= i < |s| :: s[i]) == {s[0]} + (set i | 0 <= i < |tail| :: tail[i]);
    }
  }

  /**
   * `_unusedPage.top()`: the least element of a non-empty set of frames
   * below `bound`, searched upwards from `k`.
   */
  function LeastFrom(s: set<nat>, k: nat, bound: nat): (m: nat)
    requires s != {}
    requires forall x :: x in s ==> k <= x < bound
    ensures m in s
    ensures forall x :: x in s ==> m <= x
    decreases bound - k
  {
    if k in s then k
    else
      assert exists x :: x in s;
      LeastFrom(s, k + 1, bound)
  }

  /** The frames of `s` whose page belongs to another descriptor than `fd` (those `flushAllByFd` leaves listed). */
  ghost function OtherFd(s: seq<nat>, fr: seq<Frame>, fd: int): (r: seq<nat>)
    ensures forall y :: y in r ==> y in s
    decreases |s|
  {
    if s == [] then []
    else
      var last := s[|s| - 1];
      OtherFd(s[..|s| - 1], fr, fd) + (if last < |fr| && fr[last].id.fd == fd then [] else [last])
  }

  /** Cutting a list at position `j`. */
  lemma Cut(u: seq<nat>, j: nat)
    requires j < |u|
    ensures u[j..] != [] && u[j..][0] == u[j] && u[j..][1..] == u[j + 1..]
    ensures u[j..] == [u[j]] + u[j + 1..]
  {
    assert u[j..] == [u[j]] + u[j + 1..];
  }

  /** Cutting a list at the end of its first part. */
  lemma SplitAt(a: seq<nat>, b: seq<nat>)
    requires b != []
    ensures (a + b)[|a|] == b[0] && (a + b)[..|a|] == a && (a + b)[|a| + 1..] == b[1..]
    ensures a + b == (a + [b[0]]) + b[1..]
  {
    assert (a + b)[..|a|] == a;
    assert (a + b)[|a| + 1..] == b[1..];
    assert a + b == (a + [b[0]]) + b[1..];
  }

  /** Extending a prefix by one element. */
  lemma Grow(u: seq<nat>, k: nat)
    requires k < |u|
    ensures u[..k + 1] == u[..k] + [u[k]]
  {
    assert u[..k + 1] == u[..k] + [u[k]];
  }

  /** Appending nothing. */
  lemma AppendNil(a: seq<nat>)
    ensures a + [] == a
  {
    assert a + [] == a;
  }

  /** A list is all of itself. */
  lemma Whole(u: seq<nat>)
    ensures u[|u|..] == [] && u[..|u|] == u
  {
  }

  /** Unfolding `OtherFd` one element at the end of a prefix. */
  lemma OtherFdStep(s: seq<nat>, fr: seq<Frame>, fd: int, j: nat)
    requires j < |s|
    ensures s[j] < |fr| && fr[s[j]].id.fd == fd ==> OtherFd(s[..j + 1], fr, fd) == OtherFd(s[..j], fr, fd)
    ensures !(s[j] < |fr| && fr[s[j]].id.fd == fd) ==> OtherFd(s[..j + 1], fr, fd) == OtherFd(s[..j], fr, fd) + [s[j]]
  {
    assert s[..j + 1][..j] == s[..j];
    assert OtherFd(s[..j], fr, fd) + [] == OtherFd(s[..j], fr, fd);
  }

  /**
   * Where the loop of `flushAllByFd` stands after `j` rounds over the
   * original list `u`: the list it has left, which is the kept frames of
   * `u[..j]` followed by `u[j..]`, and the position of `u[j]` in it.
   */
  ghost function FdReached(u: seq<nat>, fr: seq<Frame>, fd: int, release: bool, j: nat): (seq<nat>, nat)
    requires j <= |u|
  {
    var kept := if release then OtherFd(u[..j], fr, fd) else u[..j];
    (kept + u[j..], |kept|)
  }

  /** Before the first round the loop stands at the head of the whole list. */
  lemma FdReachedStart(u: seq<nat>, fr: seq<Frame>, fd: int, release: bool)
    ensures FdReached(u, fr, fd, release, 0) == (u, 0)
  {
    assert u[..0] == [] && u[0..] == u && [] + u == u;
    assert OtherFd([], fr, fd) == [];
  }

  /**
   * One round: the frame at position `i` is `u[j]`; with `release`, a frame
   * of `fd` is cut out and the position stays, otherwise it advances.
   */
  lemma FdReachedStep(u: seq<nat>, fr: seq<Frame>, fd: int, release: bool, j: nat, used: seq<nat>, i: nat)
    requires j <= |u| && (used, i) == FdReached(u, fr, fd, release, j) && i < |used|
    ensures j < |u| && used[i] == u[j]
    ensures release && u[j] < |fr| && fr[u[j]].id.fd == fd ==>
      (used[..i] + used[i + 1..], i) == FdReached(u, fr, fd, release, j + 1)
    ensures !(release && u[j] < |fr| && fr[u[j]].id.fd == fd) ==>
      (used, i + 1) == FdReached(u, fr, fd, release, j + 1)
  {
    Cut(u, j);
    Grow(u, j);
    var kept := if release then OtherFd(u[..j], fr, fd) else u[..j];
    SplitAt(kept, u[j..]);
    if release {
      OtherFdStep(u, fr, fd, j);
    }
  }

  /** When the position has passed the end, every round is done and the list is the kept frames. */
  lemma FdReachedDone(u: seq<nat>, fr: seq<Frame>, fd: int, release: bool, j: nat, used: seq<nat>, i: nat)
    requires j <= |u| && (used, i) == FdReached(u, fr, fd, release, j) && i >= |used|
    ensures j == |u| && u[..j] == u
    ensures used == if release then OtherFd(u, fr, fd) else u
  {
    Whole(u);
    var kept := if release then OtherFd(u[..j], fr, fd) else u[..j];
    AppendNil(kept);
  }


  /** Before the first round of the loop of `flushAllByFd` nothing has changed. */
  lemma FdLoopStart(s0: Pool, fd: int, release: bool)
    ensures FdReached(s0.used, s0.frames, fd, release, 0) == (s0.used, 0)
    ensures FlushFd(s0, fd, release, s0.used[..0]) == s0
  {
    FdReachedStart(s0.used, s0.frames, fd, release);
    assert s0.used[..0] == [];
  }

  /** After the last round of the loop of `flushAllByFd` the state is the whole loop's. */
  lemma FdLoopDone(s0: Pool, fd: int, release: bool, j: nat, s: Pool, i: nat)
    requires j <= |s0.used|
    requires s == FlushFd(s0, fd, release, s0.used[..j])
    requires (s.used, i) == FdReached(s0.used, s0.frames, fd, release, j) && i >= |s.used|
    ensures s == FlushFd(s0, fd, release, s0.used)
    ensures s.used == if release then OtherFd(s0.used, s0.frames, fd) else s0.used
  {
    FdReachedDone(s0.used, s0.frames, fd, release, j, s.used, i);
  }

  /** Membership in `OtherFd`: listed, and not a frame of `fd`. */
  lemma {:induction false} OtherFdMembers(s: seq<nat>, fr: seq<Frame>, fd: int, y: nat)
    requires forall i :: 0 <= i < |s| ==> s[i] < |fr|
    ensures y in OtherFd(s, fr, fd) <==> y in s && fr[y].id.fd != fd
    decreases |s|
  {
    if s != [] {
      var init := s[..|s| - 1];
      OtherFdMembers(init, fr, fd, y);
      assert s == init + [s[|s| - 1]];
    }
  }

  /**
   * The state of a `PageManager` as a value: the frames `_page`, the LRU
   * list `_usedPage` of frame numbers (most recently used first), the map
   * `_hashm` from resident page to frame, the pool `_unusedPage`, and the
   * files behind the descriptors.
   */
  datatype Pool = Pool(frames: seq<Frame>, used: seq<nat>, index: map<Pid, nat>, free: set<nat>, disk: Disk)

  /**
   * The list part of the pool's invariant with `cap` frames: every frame is
   * free or listed, not both, and no frame is listed twice.
   */
  ghost predicate ListOk(cap: nat, s: Pool)
  {
    && 0 < cap && |s.frames| == cap
    && Distinct(s.used)
    && (forall i :: 0 <= i < |s.used| ==> s.used[i] < cap)
    && (forall f :: f in s.free ==> f < cap && f !in s.used)
    && (forall f: nat :: f < cap ==> f in s.free || f in s.used)
  }

  /** The index part: the index maps each resident page to the listed frame bound to it, and nothing else. */
  ghost predicate IndexOk(cap: nat, s: Pool)
  {
    && |s.frames| == cap
    && (forall p :: p in s.index ==> s.index[p] < cap && s.index[p] in s.used && s.frames[s.index[p]].id == p)
    && (forall i :: 0 <= i < |s.used| ==> s.used[i] < cap && s.frames[s.used[i]].id in s.index && s.index[s.frames[s.used[i]].id] == s.used[i])
  }

  /** The data part: frames hold whole pages, free frames are clean, and a clean resident frame holds what the disk holds. */
  ghost predicate DataOk(cap: nat, s: Pool)
  {
    && |s.frames| == cap
    && (forall f :: 0 <= f < cap ==> |s.frames[f].data| == PAGESIZE)
    && (forall f :: f in s.free ==> f < cap && !s.frames[f].dirty)
    && (forall p :: p in s.index && s.index[p] < cap && !s.frames[s.index[p]].dirty ==> s.frames[s.index[p]].data == DiskPage(s.disk, p))
    && WholePages(s.disk)
  }

  /** The pool's invariant with `cap` frames. */
  ghost predicate PoolInv(cap: nat, s: Pool)
  {
    ListOk(cap, s) && IndexOk(cap, s) && DataOk(cap, s)
  }

  /** A page's bytes as every reader sees them: its frame's if resident, else the disk's. */
  ghost function Content(s: Pool, p: Pid): seq<byte>
  {
    if p in s.index && s.index[p] < |s.frames| then s.frames[s.index[p]].data else DiskPage(s.disk, p)
  }

  /** Two states show every page with the same bytes. */
  ghost predicate SameContent(s: Pool, t: Pool)
  {
    forall p :: Content(s, p) == Content(t, p)
  }

  /** `writeToDisk` of frame `f`. */
  function WriteBackFrame(s: Pool, f: nat): Pool
    requires f < |s.frames|
  {
    var (d, fr) := WriteBack(s.disk, s.frames[f]);
    s.(frames := s.frames[f := fr], disk := d)
  }

  /** The release half of `flush(p, true)`: frame `f` leaves the list and the index and joins the pool. */
  function Release(s: Pool, f: nat): Pool
    requires f < |s.frames|
  {
    s.(used := Without(s.used, f), index := s.index - {s.frames[f].id}, free := s.free + {f})
  }

  /** The hit path of `getPage`: frame `f` moves to the head of the list. */
  function Promote(s: Pool, f: nat): Pool
  {
    s.(used := [f] + Without(s.used, f))
  }

  /** The load path of `getPage`: free frame `f` is bound to `p`, clean, at the head, holding `p`'s disk bytes. */
  function Bind(s: Pool, p: Pid, f: nat): Pool
    requires f < |s.frames|
  {
    s.(frames := s.frames[f := Frame(p, DiskPage(s.disk, p), false)],
       used := [f] + s.used, index := s.index[p := f], free := s.free - {f})
  }

  /** A caller storing `bytes` into frame `f` and marking it dirty. */
  function Store(s: Pool, f: nat, bytes: seq<byte>): Pool
    requires f < |s.frames|
  {
    s.(frames := s.frames[f := s.frames[f].(data := bytes, dirty := true)])
  }

  /** The release half of `flushAll(true)`: nothing listed or indexed, every frame in the pool. */
  function ReleaseAll(cap: nat, s: Pool): Pool
  {
    s.(used := [], index := map[], free := AllFrames(cap))
  }

  /** The state the constructor leaves: nothing resident, every frame in the pool. */
  function Initial(fr: seq<Frame>, disk: Disk): Pool
  {
    Pool(fr, [], map[], AllFrames(|fr|), disk)
  }

  /** With clean whole-page frames, the initial state meets the invariant and every page reads from disk. */
  lemma InitialKeeps(fr: seq<Frame>, disk: Disk)
    requires 0 < |fr| && WholePages(disk)
    requires forall f :: 0 <= f < |fr| ==> fr[f] == Frame(Pid(-1, 0), ZERO_PAGE, false)
    ensures PoolInv(|fr|, Initial(fr, disk))
    ensures forall p :: Content(Initial(fr, disk), p) == DiskPage(disk, p)
  {
  }

  /** With no frame free, some frame is listed, so `getPage` always finds an eviction victim. */
  lemma VictimExists(cap: nat, s: Pool)
    requires ListOk(cap, s) && s.free == {}
    ensures s.used != []
  {
    assert 0 in s.free || 0 in s.used;
  }

  /** A change that keeps the list, the index, the pool and every frame's page keeps the list and index parts. */
  lemma SameShapeKeeps(cap: nat, s: Pool, t: Pool)
    requires ListOk(cap, s) && IndexOk(cap, s)
    requires t.used == s.used && t.index == s.index && t.free == s.free && |t.frames| == |s.frames|
    requires forall g :: 0 <= g < |s.frames| ==> t.frames[g].id == s.frames[g].id
    ensures ListOk(cap, t) && IndexOk(cap, t)
  {
  }

  /** Writing a frame back changes the disk at that frame's page only. */
  lemma WriteBackDisk(disk: Disk, fr: Frame)
    requires WholePages(disk) && |fr.data| == PAGESIZE
    ensures WholePages(WriteBack(disk, fr).0)
    ensures forall q :: DiskPage(WriteBack(disk, fr).0, q) == if q == fr.id && fr.dirty then fr.data else DiskPage(disk, q)
  {
    forall q
      ensures DiskPage(WriteBack(disk, fr).0, q) == if q == fr.id && fr.dirty then fr.data else DiskPage(disk, q)
    {
      AddrOfInjective(q, fr.id);
    }
  }

  /** The data part and the content under a write-back of frame `f`. */
  lemma WriteBackFrameData(cap: nat, s: Pool, f: nat)
    requires ListOk(cap, s) && IndexOk(cap, s) && DataOk(cap, s) && f < cap
    ensures DataOk(cap, WriteBackFrame(s, f))
    ensures SameContent(s, WriteBackFrame(s, f))
    ensures forall q :: q != s.frames[f].id ==> DiskPage(WriteBackFrame(s, f).disk, q) == DiskPage(s.disk, q)
    ensures DiskPage(WriteBackFrame(s, f).disk, s.frames[f].id) == if s.frames[f].dirty then s.frames[f].data else DiskPage(s.disk, s.frames[f].id)
  {
    var t := WriteBackFrame(s, f);
    var fr := s.frames[f];
    WriteBackDisk(s.disk, fr);
    if !fr.dirty {
      assert t.frames == s.frames;
    } else {
      assert f !in s.free;
      var k :| 0 <= k < |s.used| && s.used[k] == f;
      assert s.index[fr.id] == f;
      forall p | p in t.index && t.index[p] < cap && !t.frames[t.index[p]].dirty
        ensures t.frames[t.index[p]].data == DiskPage(t.disk, p)
      {
        if s.index[p] != f {
          assert p != fr.id;
        }
      }
      forall p
        ensures Content(s, p) == Content(t, p)
      {
        if p in s.index && s.index[p] != f {
          assert p != fr.id;
        }
      }
    }
  }

  /**
   * Writing a frame back keeps the invariant and every page's content; the
   * frame ends clean, and the disk changes only at that frame's page, which
   * now holds the frame's bytes.
   */
  lemma WriteBackFrameKeeps(cap: nat, s: Pool, f: nat)
    requires PoolInv(cap, s) && f < cap
    ensures PoolInv(cap, WriteBackFrame(s, f))
    ensures SameContent(s, WriteBackFrame(s, f))
    ensures !WriteBackFrame(s, f).frames[f].dirty
    ensures forall q :: q != s.frames[f].id ==> DiskPage(WriteBackFrame(s, f).disk, q) == DiskPage(s.disk, q)
    ensures DiskPage(WriteBackFrame(s, f).disk, s.frames[f].id) == if s.frames[f].dirty then s.frames[f].data else DiskPage(s.disk, s.frames[f].id)
  {
    SameShapeKeeps(cap, s, WriteBackFrame(s, f));
    WriteBackFrameData(cap, s, f);
  }

  /** Writing back a listed frame leaves its page's bytes, as every reader saw them, on disk. */
  lemma WriteBackShowsContent(cap: nat, s: Pool, f: nat)
    requires PoolInv(cap, s) && f in s.used
    ensures f < cap && DiskPage(WriteBackFrame(s, f).disk, s.frames[f].id) == Content(s, s.frames[f].id)
  {
    var k :| 0 <= k < |s.used| && s.used[k] == f;
    WriteBackDisk(s.disk, s.frames[f]);
    assert s.index[s.frames[f].id] == f;
  }

  /** The list part under releasing listed frame `f`. */
  lemma ReleaseList(cap: nat, s: Pool, f: nat)
    requires ListOk(cap, s) && f in s.used
    ensures ListOk(cap, Release(s, f))
  {
    WithoutDistinct(s.used, f);
    var t := Release(s, f);
    forall i | 0 <= i < |t.used|
      ensures t.used[i] < cap
    {
      assert t.used[i] in s.used;
    }
  }

  /** The index part under releasing listed frame `f`. */
  lemma ReleaseIndex(cap: nat, s: Pool, f: nat)
    requires ListOk(cap, s) && IndexOk(cap, s) && f in s.used
    ensures IndexOk(cap, Release(s, f))
  {
    var t := Release(s, f);
    var id := s.frames[f].id;
    assert s.index[id] == f;
    forall i | 0 <= i < |t.used|
      ensures t.used[i] < cap && t.frames[t.used[i]].id in t.index && t.index[t.frames[t.used[i]].id] == t.used[i]
    {
      assert t.used[i] in s.used;
      var k :| 0 <= k < |s.used| && s.used[k] == t.used[i];
    }
  }

  /** The data part and the content under releasing clean listed frame `f`. */
  lemma ReleaseData(cap: nat, s: Pool, f: nat)
    requires IndexOk(cap, s) && DataOk(cap, s) && f in s.used && !s.frames[f].dirty
    ensures DataOk(cap, Release(s, f))
    ensures SameContent(s, Release(s, f))
  {
    var id := s.frames[f].id;
    assert s.index[id] == f;
  }

  /**
   * Releasing a clean listed frame keeps the invariant and every page's
   * content (the released page's bytes are on disk).
   */
  lemma ReleaseKeeps(cap: nat, s: Pool, f: nat)
    requires PoolInv(cap, s) && f in s.used && !s.frames[f].dirty
    ensures PoolInv(cap, Release(s, f))
    ensures SameContent(s, Release(s, f))
  {
    ReleaseList(cap, s, f);
    ReleaseIndex(cap, s, f);
    ReleaseData(cap, s, f);
  }

  /** The list part under moving listed frame `f` to the head. */
  lemma PromoteList(cap: nat, s: Pool, f: nat)
    requires ListOk(cap, s) && f in s.used
    ensures ListOk(cap, Promote(s, f))
    ensures |Promote(s, f).used| == |s.used|
    ensures forall g :: g in Promote(s, f).used <==> g in s.used
  {
    var t := Promote(s, f);
    var w := Without(s.used, f);
    WithoutDistinct(s.used, f);
    DistinctCons(f, w);
    forall i | 0 <= i < |t.used|
      ensures t.used[i] < cap
    {
      assert t.used[i] in s.used;
    }
  }

  /** The index part under moving listed frame `f` to the head. */
  lemma PromoteIndex(cap: nat, s: Pool, f: nat)
    requires IndexOk(cap, s) && f in s.used
    ensures IndexOk(cap, Promote(s, f))
  {
    var t := Promote(s, f);
    forall i | 0 <= i < |t.used|
      ensures t.used[i] < cap && t.frames[t.used[i]].id in t.index && t.index[t.frames[t.used[i]].id] == t.used[i]
    {
      assert t.used[i] in s.used;
      var k :| 0 <= k < |s.used| && s.used[k] == t.used[i];
    }
  }

  /** Moving a listed frame to the head keeps the invariant and the content, and only reorders the list. */
  lemma PromoteKeeps(cap: nat, s: Pool, p: Pid)
    requires PoolInv(cap, s) && p in s.index
    ensures PoolInv(cap, Promote(s, s.index[p]))
    ensures SameContent(s, Promote(s, s.index[p]))
    ensures |Promote(s, s.index[p]).used| == |s.used|
    ensures forall g :: g in Promote(s, s.index[p]).used <==> g in s.used
  {
    PromoteList(cap, s, s.index[p]);
    PromoteIndex(cap, s, s.index[p]);
  }

  /** The list part under binding free frame `f`. */
  lemma BindList(cap: nat, s: Pool, p: Pid, f: nat)
    requires ListOk(cap, s) && f in s.free
    ensures ListOk(cap, Bind(s, p, f))
  {
    var t := Bind(s, p, f);
    assert f !in s.used;
    DistinctCons(f, s.used);
  }

  /** The index part under binding free frame `f` to a page that is not resident. */
  lemma BindIndex(cap: nat, s: Pool, p: Pid, f: nat)
    requires ListOk(cap, s) && IndexOk(cap, s) && p !in s.index && f in s.free
    ensures IndexOk(cap, Bind(s, p, f))
  {
    var t := Bind(s, p, f);
    assert f !in s.used;
    forall i | 0 <= i < |t.used|
      ensures t.used[i] < cap && t.frames[t.used[i]].id in t.index && t.index[t.frames[t.used[i]].id] == t.used[i]
    {
      if i > 0 {
        assert t.used[i] == s.used[i - 1];
        assert s.frames[s.used[i - 1]].id != p;
      }
    }
    forall q | q in t.index
      ensures t.index[q] < cap && t.index[q] in t.used && t.frames[t.index[q]].id == q
    {
      if q != p {
        assert s.index[q] in s.used;
      }
    }
  }

  /** The data part and the content under binding free frame `f` to a page that is not resident. */
  lemma BindData(cap: nat, s: Pool, p: Pid, f: nat)
    requires ListOk(cap, s) && IndexOk(cap, s) && DataOk(cap, s) && p !in s.index && f in s.free
    ensures DataOk(cap, Bind(s, p, f))
    ensures SameContent(s, Bind(s, p, f))
  {
    assert f !in s.used;
    forall q | q in s.index
      ensures s.index[q] != f
    {
      assert s.index[q] in s.used;
    }
  }

  /**
   * Binding a free frame to a page that is not resident keeps the invariant
   * and every page's content: the page now reads from its frame the bytes it
   * read from disk before.
   */
  lemma BindKeeps(cap: nat, s: Pool, p: Pid, f: nat)
    requires PoolInv(cap, s) && p !in s.index && f in s.free
    ensures PoolInv(cap, Bind(s, p, f))
    ensures SameContent(s, Bind(s, p, f))
  {
    BindList(cap, s, p, f);
    BindIndex(cap, s, p, f);
    BindData(cap, s, p, f);
  }

  /** The data part and the content under storing into listed frame `f`. */
  lemma StoreData(cap: nat, s: Pool, f: nat, bytes: seq<byte>)
    requires ListOk(cap, s) && IndexOk(cap, s) && DataOk(cap, s) && f in s.used && |bytes| == PAGESIZE
    ensures DataOk(cap, Store(s, f, bytes))
    ensures Content(Store(s, f, bytes), s.frames[f].id) == bytes
    ensures forall q :: q != s.frames[f].id ==> Content(Store(s, f, bytes), q) == Content(s, q)
  {
    assert f !in s.free;
    var k :| 0 <= k < |s.used| && s.used[k] == f;
    forall q | q in s.index && q != s.frames[f].id
      ensures s.index[q] != f
    {
    }
  }

  /**
   * Storing into a listed frame keeps the invariant; that frame's page now
   * reads as the stored bytes and no other page changes.
   */
  lemma StoreKeeps(cap: nat, s: Pool, f: nat, bytes: seq<byte>)
    requires PoolInv(cap, s) && f in s.used && |bytes| == PAGESIZE
    ensures PoolInv(cap, Store(s, f, bytes))
    ensures Content(Store(s, f, bytes), s.frames[f].id) == bytes
    ensures forall q :: q != s.frames[f].id ==> Content(Store(s, f, bytes), q) == Content(s, q)
  {
    SameShapeKeeps(cap, s, Store(s, f, bytes));
    StoreData(cap, s, f, bytes);
  }

  /** With every frame clean, releasing all frames keeps the invariant and every page's content. */
  lemma ReleaseAllKeeps(cap: nat, s: Pool)
    requires PoolInv(cap, s)
    requires forall f :: 0 <= f < cap ==> !s.frames[f].dirty
    ensures PoolInv(cap, ReleaseAll(cap, s))
    ensures SameContent(s, ReleaseAll(cap, s))
  {
  }

  /** The first loop of `flushAll`: write back each frame of `todo`, in order. */
  function WriteBackEach(s: Pool, todo: seq<nat>): Pool
    requires forall i :: 0 <= i < |todo| ==> todo[i] < |s.frames|
    decreases |todo|
  {
    if todo == [] then s else WriteBackEach(WriteBackFrame(s, todo[0]), todo[1..])
  }

  /**
   * Writing back the frames of `todo` one after another keeps the invariant,
   * every page's content, the list, the index and the pool; exactly the
   * frames of `todo` end clean, and the disk changes only at resident pages.
   */
  lemma {:induction false} WriteBackEachKeeps(cap: nat, s: Pool, todo: seq<nat>)
    requires PoolInv(cap, s)
    requires forall i :: 0 <= i < |todo| ==> todo[i] < cap
    ensures PoolInv(cap, WriteBackEach(s, todo))
    ensures SameContent(s, WriteBackEach(s, todo))
    ensures WriteBackEach(s, todo).used == s.used && WriteBackEach(s, todo).index == s.index
    ensures WriteBackEach(s, todo).free == s.free
    ensures forall g :: 0 <= g < cap ==>
      WriteBackEach(s, todo).frames[g] == if g in todo then s.frames[g].(dirty := false) else s.frames[g]
    ensures forall q :: q !in s.index ==> DiskPage(WriteBackEach(s, todo).disk, q) == DiskPage(s.disk, q)
    decreases |todo|
  {
    if todo != [] {
      var f := todo[0];
      var s1 := WriteBackFrame(s, f);
      WriteBackFrameKeeps(cap, s, f);
      WriteBackEachKeeps(cap, s1, todo[1..]);
      var t := WriteBackEach(s, todo);
      assert t == WriteBackEach(s1, todo[1..]);
      forall g | 0 <= g < cap
        ensures t.frames[g] == if g in todo then s.frames[g].(dirty := false) else s.frames[g]
      {
        assert g in todo <==> g == f || g in todo[1..];
      }
      if s.frames[f].dirty {
        assert f !in s.free;
        var k :| 0 <= k < |s.used| && s.used[k] == f;
      }
    }
  }

  /** A frame is listed or free exactly when it is one of the `cap` frames. */
  lemma ListedOrFree(cap: nat, s: Pool)
    requires ListOk(cap, s)
    ensures forall x: nat :: x in s.free || x in s.used <==> x < cap
  {
    forall x: nat | x in s.used
      ensures x < cap
    {
      var j :| 0 <= j < |s.used| && s.used[j] == x;
    }
  }

  /** Adding every listed frame to the free ones gives all `cap` frames. */
  lemma ListedAndFree(cap: nat, s: Pool, pool: set<nat>)
    requires ListOk(cap, s)
    requires forall x :: x in pool <==> x in s.free || x in s.used
    ensures pool == AllFrames(cap)
  {
    ListedOrFree(cap, s);
    forall x: nat
      ensures x in pool <==> x in AllFrames(cap)
    {
    }
  }

  /** Listed plus free frames number `cap`. */
  lemma PartitionCount(cap: nat, s: Pool)
    requires ListOk(cap, s)
    ensures |s.used| + |s.free| == cap
  {
    var listed := set j | 0 <= j < |s.used| :: s.used[j];
    DistinctCard(s.used);
    ListedOrFree(cap, s);
    forall x | x in listed
      ensures x < cap && x !in s.free
    {
      var j :| 0 <= j < |s.used| && s.used[j] == x;
    }
    assert listed + s.free == AllFrames(cap);
  }

  /**
   * `flushAll`: after writing back every listed frame no frame is dirty and
   * the disk holds every page's content; releasing them all afterwards
   * keeps the invariant and the content too.
   */
  lemma FlushAllKeeps(cap: nat, s: Pool)
    requires PoolInv(cap, s)
    ensures PoolInv(cap, WriteBackEach(s, s.used))
    ensures SameContent(s, WriteBackEach(s, s.used))
    ensures WriteBackEach(s, s.used).used == s.used && WriteBackEach(s, s.used).index == s.index
    ensures WriteBackEach(s, s.used).free == s.free
    ensures forall g :: 0 <= g < cap ==> WriteBackEach(s, s.used).frames[g] == s.frames[g].(dirty := false)
    ensures forall q :: DiskPage(WriteBackEach(s, s.used).disk, q) == Content(s, q)
  {
    WriteBackEachKeeps(cap, s, s.used);
    var t := WriteBackEach(s, s.used);
    forall g | 0 <= g < cap
      ensures t.frames[g] == s.frames[g].(dirty := false)
    {
      if g !in s.used {
        assert g in s.free;
      }
    }
    forall q
      ensures DiskPage(t.disk, q) == Content(s, q)
    {
      assert Content(s, q) == Content(t, q);
      if q in t.index {
        assert !t.frames[t.index[q]].dirty;
      }
    }
  }

  /**
   * One round of `flushAllByFd`'s loop at listed frame `f`.  A frame number
   * outside the pool is left alone; the pool's invariant keeps every listed
   * frame inside it.
   */
  function FdStep(s: Pool, fd: int, release: bool, f: nat): (t: Pool)
    ensures |t.frames| == |s.frames|
  {
    if f >= |s.frames| || s.frames[f].id.fd != fd then s
    else if release then Release(WriteBackFrame(s, f), f)
    else WriteBackFrame(s, f)
  }

  /** The loop of `flushAllByFd` over the frames `todo`, in order. */
  function FlushFd(s: Pool, fd: int, release: bool, todo: seq<nat>): (t: Pool)
    ensures |t.frames| == |s.frames|
    decreases |todo|
  {
    if todo == [] then s else FlushFd(FdStep(s, fd, release, todo[0]), fd, release, todo[1..])
  }

  /** `FlushFd` over a list and one more frame is one more round at the end. */
  lemma {:induction false} FlushFdSnoc(s: Pool, fd: int, release: bool, todo: seq<nat>, x: nat)
    ensures FlushFd(s, fd, release, todo + [x]) == FdStep(FlushFd(s, fd, release, todo), fd, release, x)
    decreases |todo|
  {
    if todo == [] {
      assert [] + [x] == [x];
      assert [x][1..] == [];
    } else {
      var s1 := FdStep(s, fd, release, todo[0]);
      assert (todo + [x])[0] == todo[0];
      assert (todo + [x])[1..] == todo[1..] + [x];
      FlushFdSnoc(s1, fd, release, todo[1..], x);
    }
  }

  /**
   * One round keeps the invariant and the content, cleans frame `f` if its
   * page belongs to `fd` and changes no other frame, changes the disk only
   * at a resident page of `fd`, and only removes from the list and index.
   */
  lemma FdStepKeeps(cap: nat, s: Pool, fd: int, release: bool, f: nat)
    requires PoolInv(cap, s) && f in s.used
    ensures PoolInv(cap, FdStep(s, fd, release, f))
    ensures SameContent(s, FdStep(s, fd, release, f))
    ensures forall g :: 0 <= g < cap ==>
      FdStep(s, fd, release, f).frames[g] == if g == f && s.frames[f].id.fd == fd then s.frames[g].(dirty := false) else s.frames[g]
    ensures forall q :: q !in s.index || q.fd != fd ==> DiskPage(FdStep(s, fd, release, f).disk, q) == DiskPage(s.disk, q)
    ensures forall q :: q in FdStep(s, fd, release, f).index ==> q in s.index
    ensures forall y :: y in s.used && y != f ==> y in FdStep(s, fd, release, f).used
  {
    var k :| 0 <= k < |s.used| && s.used[k] == f;
    if s.frames[f].id.fd == fd {
      WriteBackFrameKeeps(cap, s, f);
      if release {
        ReleaseKeeps(cap, WriteBackFrame(s, f), f);
      }
    }
  }

  /**
   * The loop of `flushAllByFd` over distinct listed frames keeps the
   * invariant and the content; it cleans exactly the frames of `todo` bound
   * to pages of `fd` and changes no other frame; the disk changes only at
   * resident pages of `fd`.
   */
  lemma {:induction false} FlushFdKeeps(cap: nat, s: Pool, fd: int, release: bool, todo: seq<nat>)
    requires PoolInv(cap, s) && Distinct(todo)
    requires forall i :: 0 <= i < |todo| ==> todo[i] in s.used && todo[i] < cap
    ensures PoolInv(cap, FlushFd(s, fd, release, todo))
    ensures SameContent(s, FlushFd(s, fd, release, todo))
    ensures forall g :: 0 <= g < cap ==>
      FlushFd(s, fd, release, todo).frames[g] == if g in todo && s.frames[g].id.fd == fd then s.frames[g].(dirty := false) else s.frames[g]
    ensures forall q :: q !in s.index || q.fd != fd ==> DiskPage(FlushFd(s, fd, release, todo).disk, q) == DiskPage(s.disk, q)
    decreases |todo|
  {
    if todo != [] {
      var f := todo[0];
      var s1 := FdStep(s, fd, release, f);
      FdStepKeeps(cap, s, fd, release, f);
      var rest := todo[1..];
      assert Distinct(rest);
      forall i | 0 <= i < |rest|
        ensures rest[i] in s1.used
      {
        assert rest[i] == todo[i + 1] != f;
      }
      FlushFdKeeps(cap, s1, fd, release, rest);
      var t := FlushFd(s, fd, release, todo);
      assert t == FlushFd(s1, fd, release, rest);
      forall g | 0 <= g < cap
        ensures t.frames[g] == if g in todo && s.frames[g].id.fd == fd then s.frames[g].(dirty := false) else s.frames[g]
      {
        assert g in todo <==> g == f || g in rest;
      }
    }
  }

  /** Part way through the loop of `flushAllByFd` the invariant holds and every frame keeps its page. */
  lemma FlushFdPrefix(cap: nat, s: Pool, fd: int, release: bool, j: nat)
    requires PoolInv(cap, s) && j <= |s.used|
    ensures PoolInv(cap, FlushFd(s, fd, release, s.used[..j]))
    ensures forall g :: 0 <= g < cap ==> FlushFd(s, fd, release, s.used[..j]).frames[g].id == s.frames[g].id
  {
    var p := s.used[..j];
    forall i | 0 <= i < |p|
      ensures p[i] in s.used && p[i] < cap
    {
      assert p[i] == s.used[i];
    }
    DistinctTake(s.used, j);
    FlushFdKeeps(cap, s, fd, release, p);
  }

  /**
   * What every round of the loop of `flushAllByFd` relies on after `j`
   * rounds from `s0`: listed frames are inside the pool, the list has no
   * repeats, and every frame still holds the page it held in `s0`.
   */
  ghost predicate RoundReady(s0: Pool, fd: int, release: bool, j: nat)
    requires j <= |s0.used|
  {
    var s := FlushFd(s0, fd, release, s0.used[..j]);
    && (forall k :: 0 <= k < |s0.used| ==> s0.used[k] < |s0.frames|)
    && Distinct(s.used)
    && (forall g :: 0 <= g < |s0.frames| ==> s.frames[g].id == s0.frames[g].id)
  }

  /** From a pool that keeps its invariant, every round is ready. */
  lemma FdRoundsReady(cap: nat, s0: Pool, fd: int, release: bool)
    requires PoolInv(cap, s0)
    ensures forall j :: 0 <= j <= |s0.used| ==> RoundReady(s0, fd, release, j)
  {
    forall j | 0 <= j <= |s0.used|
      ensures RoundReady(s0, fd, release, j)
    {
      FlushFdPrefix(cap, s0, fd, release, j);
    }
  }

  /**
   * What round `j` of the loop of `flushAllByFd` needs to know about the
   * state `s` it starts from: the frame at position `i` is `s0.used[j]`, it
   * still holds its original page, the list has no repeats, and the whole
   * round is one `FdStep` on `s`.
   */
  lemma FdRoundPlan(s0: Pool, fd: int, release: bool, j: nat, s: Pool, i: nat)
    requires j <= |s0.used| && RoundReady(s0, fd, release, j)
    requires s == FlushFd(s0, fd, release, s0.used[..j])
    requires (s.used, i) == FdReached(s0.used, s0.frames, fd, release, j) && i < |s.used|
    ensures j < |s0.used| && s.used[i] == s0.used[j] && s.used[i] < |s.frames|
    ensures Distinct(s.used) && s.frames[s.used[i]].id == s0.frames[s.used[i]].id
    ensures FlushFd(s0, fd, release, s0.used[..j + 1]) == FdStep(s, fd, release, s.used[i])
    ensures release && s.frames[s.used[i]].id.fd == fd ==>
      (s.used[..i] + s.used[i + 1..], i) == FdReached(s0.used, s0.frames, fd, release, j + 1)
    ensures !(release && s.frames[s.used[i]].id.fd == fd) ==>
      (s.used, i + 1) == FdReached(s0.used, s0.frames, fd, release, j + 1)
  {
    FdReachedStep(s0.used, s0.frames, fd, release, j, s.used, i);
    FlushFdSnoc(s0, fd, release, s0.used[..j], s0.used[j]);
    Grow(s0.used, j);
  }

  /**
   * One round keeps the list and index parts and every frame's page; only
   * frame `f` can leave the list; without `release` nothing but frames and
   * disk change, and with it a matching `f` leaves the index and joins the pool.
   */
  lemma FdStepShape(cap: nat, s: Pool, fd: int, release: bool, f: nat)
    requires ListOk(cap, s) && IndexOk(cap, s) && f in s.used
    ensures ListOk(cap, FdStep(s, fd, release, f)) && IndexOk(cap, FdStep(s, fd, release, f))
    ensures forall g :: 0 <= g < cap ==> FdStep(s, fd, release, f).frames[g].id == s.frames[g].id
    ensures forall y :: y in s.used && y != f ==> y in FdStep(s, fd, release, f).used
    ensures !release ==> FdStep(s, fd, release, f).used == s.used
    ensures !release ==> FdStep(s, fd, release, f).index == s.index && FdStep(s, fd, release, f).free == s.free
    ensures release ==> FdStep(s, fd, release, f).index == if s.frames[f].id.fd == fd then s.index - {s.frames[f].id} else s.index
    ensures release ==> FdStep(s, fd, release, f).free == if s.frames[f].id.fd == fd then s.free + {f} else s.free
  {
    var k :| 0 <= k < |s.used| && s.used[k] == f;
    if s.frames[f].id.fd == fd {
      var w := WriteBackFrame(s, f);
      SameShapeKeeps(cap, s, w);
      if release {
        ReleaseList(cap, w, f);
        ReleaseIndex(cap, w, f);
      }
    }
  }

  /** Without `release`, the loop of `flushAllByFd` leaves the list, the index and the pool alone. */
  lemma {:induction false} FlushFdWriteOnly(cap: nat, s: Pool, fd: int, todo: seq<nat>)
    requires ListOk(cap, s) && IndexOk(cap, s) && Distinct(todo)
    requires forall i :: 0 <= i < |todo| ==> todo[i] in s.used && todo[i] < cap
    ensures FlushFd(s, fd, false, todo).used == s.used
    ensures FlushFd(s, fd, false, todo).index == s.index && FlushFd(s, fd, false, todo).free == s.free
    decreases |todo|
  {
    if todo != [] {
      var f := todo[0];
      var s1 := FdStep(s, fd, false, f);
      FdStepShape(cap, s, fd, false, f);
      assert Distinct(todo[1..]);
      FlushFdWriteOnly(cap, s1, fd, todo[1..]);
      assert FlushFd(s, fd, false, todo) == FlushFd(s1, fd, false, todo[1..]);
    }
  }

  /** With `release`, exactly the pages of `fd` bound to frames of `todo` leave the index; the rest keep their frames. */
  lemma {:induction false} FlushFdIndex(cap: nat, s: Pool, fd: int, todo: seq<nat>)
    requires ListOk(cap, s) && IndexOk(cap, s) && Distinct(todo)
    requires forall i :: 0 <= i < |todo| ==> todo[i] in s.used && todo[i] < cap
    ensures forall q :: q in FlushFd(s, fd, true, todo).index <==> q in s.index && !(q.fd == fd && s.index[q] in todo)
    ensures forall q :: q in FlushFd(s, fd, true, todo).index ==> FlushFd(s, fd, true, todo).index[q] == s.index[q]
    decreases |todo|
  {
    if todo != [] {
      var f := todo[0];
      var s1 := FdStep(s, fd, true, f);
      FdStepShape(cap, s, fd, true, f);
      var rest := todo[1..];
      assert Distinct(rest);
      forall i | 0 <= i < |rest|
        ensures rest[i] in s1.used
      {
        assert rest[i] == todo[i + 1] != f;
      }
      FlushFdIndex(cap, s1, fd, rest);
      var t := FlushFd(s, fd, true, todo);
      assert t == FlushFd(s1, fd, true, rest);
      var id := s.frames[f].id;
      assert s.index[id] == f;
      forall q
        ensures q in t.index <==> q in s.index && !(q.fd == fd && s.index[q] in todo)
      {
        if q in s.index && s.index[q] == f {
          assert q == id;
        }
      }
    }
  }

  /** With `release`, exactly the frames of `todo` bound to pages of `fd` join the pool. */
  lemma {:induction false} FlushFdFree(cap: nat, s: Pool, fd: int, todo: seq<nat>)
    requires ListOk(cap, s) && IndexOk(cap, s) && Distinct(todo)
    requires forall i :: 0 <= i < |todo| ==> todo[i] in s.used && todo[i] < cap
    ensures forall g :: g in FlushFd(s, fd, true, todo).free <==> g in s.free || (g in todo && s.frames[g].id.fd == fd)
    decreases |todo|
  {
    if todo != [] {
      var f := todo[0];
      var s1 := FdStep(s, fd, true, f);
      FdStepShape(cap, s, fd, true, f);
      var rest := todo[1..];
      assert Distinct(rest);
      forall i | 0 <= i < |rest|
        ensures rest[i] in s1.used
      {
        assert rest[i] == todo[i + 1] != f;
      }
      FlushFdFree(cap, s1, fd, rest);
      var t := FlushFd(s, fd, true, todo);
      assert t == FlushFd(s1, fd, true, rest);
      forall g
        ensures g in t.free <==> g in s.free || (g in todo && s.frames[g].id.fd == fd)
      {
        assert g in todo <==> g == f || g in rest;
      }
    }
  }

  /**
   * `flushAllByFd` over the whole list: the invariant and the content are
   * kept, the disk holds every page of `fd` as it read before and no other
   * page changes on disk, frames of other descriptors are untouched, every
   * listed frame of `fd` ends clean, and with `release` the pages of `fd`
   * leave the index and their frames join the pool.
   */
  lemma FlushFdDone(cap: nat, s: Pool, fd: int, release: bool)
    requires PoolInv(cap, s)
    ensures PoolInv(cap, FlushFd(s, fd, release, s.used))
    ensures SameContent(s, FlushFd(s, fd, release, s.used))
    ensures forall q: Pid :: q.fd == fd ==> DiskPage(FlushFd(s, fd, release, s.used).disk, q) == Content(s, q)
    ensures forall q: Pid :: q.fd != fd ==> DiskPage(FlushFd(s, fd, release, s.used).disk, q) == DiskPage(s.disk, q)
    ensures forall g :: 0 <= g < cap && g in s.used ==>
      FlushFd(s, fd, release, s.used).frames[g] == s.frames[g].(dirty := s.frames[g].dirty && s.frames[g].id.fd != fd)
    ensures forall g :: 0 <= g < cap && s.frames[g].id.fd != fd ==> FlushFd(s, fd, release, s.used).frames[g] == s.frames[g]
    ensures !release ==> FlushFd(s, fd, release, s.used).used == s.used
    ensures !release ==> FlushFd(s, fd, release, s.used).index == s.index && FlushFd(s, fd, release, s.used).free == s.free
    ensures release ==> forall q :: q in FlushFd(s, fd, release, s.used).index <==> q in s.index && q.fd != fd
    ensures release ==> forall q :: q in FlushFd(s, fd, release, s.used).index ==> FlushFd(s, fd, release, s.used).index[q] == s.index[q]
    ensures release ==> forall g :: g in FlushFd(s, fd, release, s.used).free <==> g in s.free || (g in s.used && s.frames[g].id.fd == fd)
  {
    FlushFdKeeps(cap, s, fd, release, s.used);
    if release {
      FlushFdIndex(cap, s, fd, s.used);
      FlushFdFree(cap, s, fd, s.used);
    } else {
      FlushFdWriteOnly(cap, s, fd, s.used);
    }
    var t := FlushFd(s, fd, release, s.used);
    forall q: Pid | q.fd == fd
      ensures DiskPage(t.disk, q) == Content(s, q)
    {
      assert Content(s, q) == Content(t, q);
      if q in t.index {
        var g := s.index[q];
        assert g in s.used && s.frames[g].id == q;
      }
    }
    if release {
      forall q
        ensures q in t.index <==> q in s.index && q.fd != fd
      {
        if q in s.index {
          assert s.index[q] in s.used && s.frames[s.index[q]].id == q;
        }
      }
    }
  }

  /**
   * The loop of `PageManager`'s constructor: `n` new frames, each clean,
   * zeroed and bound to no page, and the pool holding all of them.
   */
  method CleanFrames(n: nat) returns (fs: array<Frame>, pool: set<nat>)
    ensures fresh(fs) && fs.Length == n && pool == AllFrames(n)
    ensures forall f :: 0 <= f < n ==> fs[f] == Frame(Pid(-1, 0), ZERO_PAGE, false)
  {
    fs := new Frame[n];
    var blank := Frame(Pid(-1, 0), ZeroPage(), false);
    var i := 0;
    while i < n
      invariant 0 <= i <= n
      invariant forall f :: 0 <= f < i ==> fs[f] == blank
    {
      fs[i] := blank;
      i := i + 1;
    }
    pool := AllFrames(n);
  }

  /**
   * `PageManager`.  `frames` holds `_page[CACHESIZE]` (each frame's slice of
   * the aligned arena folded into its `data`); `used` is `_usedPage`;
   * `index` is `_hashm`, mapping a resident page to its frame (the list
   * position is that frame's position in `used`); `free` is `_unusedPage`.
   */
  class PageManager {
    const capacity: nat
    const frames: array<Frame>
    var used: seq<nat>
    var index: map<Pid, nat>
    var free: set<nat>
    var disk: Disk

    /** The manager's fields as a `Pool` value. */
    ghost function State(): Pool
      reads this, frames
    {
      Pool(frames[..], used, index, free, disk)
    }

    ghost predicate Valid()
      reads this, frames
    {
      frames.Length == capacity && PoolInv(capacity, State())
    }

    /** The page's bytes as every reader sees them. */
    ghost function Logical(p: Pid): seq<byte>
      reads this, frames
    {
      Content(State(), p)
    }

    /** The constructor: every frame starts unused and clean. */
    constructor (cacheSize: nat, files: Disk)
      requires 0 < cacheSize
      requires WholePages(files)
      ensures Valid()
      ensures capacity == cacheSize && used == [] && index == map[] && disk == files
      ensures free == AllFrames(cacheSize)
      ensures forall p :: Logical(p) == DiskPage(files, p)
    {
      var fs, pool := CleanFrames(cacheSize);
      capacity := cacheSize;
      frames := fs;
      used := [];
      index := map[];
      free := pool;
      disk := files;
      new;
      InitialKeeps(frames[..], disk);
    }

    /** `isInCache(p)`: whether some listed frame holds `p`; it changes nothing. */
    method IsInCache(p: Pid) returns (b: bool)
      requires Valid()
      ensures b <==> exists i :: 0 <= i < |used| && frames[used[i]].id == p
      ensures b == (p in index)
    {
      b := p in index;
      if b {
        var i :| 0 <= i < |used| && used[i] == index[p];
      }
    }

    /** `writeToDisk`: a dirty frame is written at its page's offset and becomes clean; a clean one is left alone. */
    method WriteToDisk(f: nat)
      requires f < frames.Length
      modifies this`disk, frames
      ensures State() == WriteBackFrame(old(State()), f)
      ensures disk == WriteBack(old(disk), old(frames[f])).0 && frames[f] == old(frames[f]).(dirty := false)
      ensures forall g :: 0 <= g < frames.Length && g != f ==> frames[g] == old(frames[g])
    {
      ghost var s := State();
      if frames[f].dirty {
        var pg := frames[f];
        disk := disk[AddrOf(pg.id) := pg.data];
        frames[f] := pg.(dirty := false);
      }
      assert State() == WriteBackFrame(s, f);
    }

    /**
     * `flush(p, release)`: write frame `f` back if dirty; with `release`,
     * also drop it from the list and the index and return it to the pool.
     */
    method Flush(f: nat, release: bool)
      requires Valid() && f < capacity
      requires release ==> f in used
      modifies this, frames
      ensures Valid()
      ensures !release ==> State() == WriteBackFrame(old(State()), f)
      ensures release ==> State() == Release(WriteBackFrame(old(State()), f), f)
      ensures (disk, frames[f]) == WriteBack(old(disk), old(frames[f]))
      ensures forall g :: 0 <= g < capacity && g != f ==> frames[g] == old(frames[g])
      ensures !release ==> used == old(used) && index == old(index) && free == old(free)
      ensures release ==> used == Without(old(used), f) && free == old(free) + {f}
      ensures release ==> index == old(index) - {old(frames[f].id)}
      ensures forall q :: Logical(q) == old(Logical(q))
    {
      WriteBackFrameKeeps(capacity, State(), f);
      WriteToDisk(f);
      if release {
        ghost var s := State();
        ReleaseKeeps(capacity, s, f);
        var id := frames[f].id;
        used := Without(used, f);
        free := free + {f};
        index := index - {id};
        assert State() == Release(s, f);
      }
    }

    /**
     * `getPage(p)`.  A hit moves `p`'s frame to the head of the list and
     * touches nothing else.  A miss first evicts the list's tail, the least
     * recently used frame, when no frame is free (writing it back only if
     * dirty), then binds the lowest free frame to `p`, clean, at the head,
     * holding `p`'s disk bytes or zeros.  Either way no page's logical
     * content changes.
     */
    method GetPage(p: Pid) returns (f: nat)
      requires Valid()
      modifies this, frames
      ensures Valid()
      ensures f < capacity && used != [] && used[0] == f && p in index && index[p] == f && frames[f].id == p
      ensures forall q :: Logical(q) == old(Logical(q))
      ensures old(p in index) ==> f == old(index[p]) && State() == Promote(old(State()), f)
      ensures old(p !in index) && old(free) != {} ==>
        f == LeastFrom(old(free), 0, capacity) && State() == Bind(old(State()), p, f)
      ensures old(p !in index) && old(free) == {} ==>
        && old(used) != [] && f == old(used[|used| - 1])
        && used == [f] + old(used[..|used| - 1])
        && State() == Bind(Release(WriteBackFrame(old(State()), f), f), p, f)
    {
      if p in index {
        f := Touch(p);
      } else {
        if free == {} {
          VictimExists(capacity, State());
          WithoutLast(used);
          Flush(used[|used| - 1], true);
        }
        f := Load(p);
      }
    }

    /** The hit path of `getPage`: move `p`'s frame to the head of the list. */
    method Touch(p: Pid) returns (f: nat)
      requires Valid() && p in index
      modifies this`used
      ensures Valid()
      ensures f == index[p] && State() == Promote(old(State()), f)
      ensures f < capacity && used != [] && used[0] == f && frames[f].id == p
      ensures forall q :: Logical(q) == old(Logical(q))
    {
      f := index[p];
      ghost var s := State();
      PromoteKeeps(capacity, s, p);
      used := [f] + Without(used, f);
      assert State() == Promote(s, f);
    }

    /** The miss path of `getPage` once a frame is free: bind the lowest free frame to `p` and read its bytes. */
    method Load(p: Pid) returns (f: nat)
      requires Valid() && p !in index && free != {}
      modifies this, frames
      ensures Valid()
      ensures f == LeastFrom(old(free), 0, capacity) && State() == Bind(old(State()), p, f)
      ensures f < capacity && used != [] && used[0] == f && p in index && index[p] == f && frames[f].id == p
      ensures forall q :: Logical(q) == old(Logical(q))
    {
      f := LeastFrom(free, 0, capacity);
      ghost var s := State();
      BindKeeps(capacity, s, p, f);
      free := free - {f};
      var nread := ReadFromDisk(disk, p);
      var data := if nread.count == 0 then ZeroPage() else nread.bytes;
      frames[f] := Frame(p, data, false);
      used := [f] + used;
      index := index[p := f];
      assert State() == Bind(s, p, f);
    }

    /**
     * A caller storing `bytes` into resident frame `f` through `Page::_data`
     * and setting `Page::_dirty` (as record.h and test/main.cc do).
     */
    method Write(f: nat, bytes: seq<byte>)
      requires Valid() && f in used && |bytes| == PAGESIZE
      modifies frames
      ensures Valid()
      ensures State() == Store(old(State()), f, bytes)
      ensures Logical(frames[f].id) == bytes
      ensures forall q :: q != frames[f].id ==> Logical(q) == old(Logical(q))
    {
      ghost var s := State();
      StoreKeeps(capacity, s, f, bytes);
      frames[f] := frames[f].(data := bytes, dirty := true);
      assert State() == Store(s, f, bytes);
    }

    /**
     * `flushAll(release)`: every listed frame is written back if dirty, so
     * afterwards the disk holds every page's logical content; with `release`
     * the list and index are emptied and every frame is free.
     */
    method FlushAll(release: bool)
      requires Valid()
      modifies this, frames
      ensures Valid()
      ensures !release ==> State() == WriteBackEach(old(State()), old(used))
      ensures release ==> State() == ReleaseAll(capacity, WriteBackEach(old(State()), old(used)))
    {
      FlushAllKeeps(capacity, State());
      WriteBackListed();
      if release {
        ReleaseListed();
      }
    }

    /** The first loop of `flushAll`: every listed frame is written back, in list order. */
    method WriteBackListed()
      requires forall k :: 0 <= k < |used| ==> used[k] < frames.Length
      modifies this`disk, frames
      ensures State() == WriteBackEach(old(State()), old(used))
    {
      ghost var s0 := State();
      var i: nat := 0;
      while i < |used|
        invariant i <= |used| && used == s0.used
        invariant WriteBackEach(State(), used[i..]) == WriteBackEach(s0, s0.used)
      {
        Cut(used, i);
        WriteToDisk(used[i]);
        i := i + 1;
      }
      Whole(used);
    }

    /** The second loop of `flushAll(true)`: every listed frame returns to the pool, then the list and index are cleared. */
    method ReleaseListed()
      requires Valid()
      requires forall f :: 0 <= f < capacity ==> !frames[f].dirty
      modifies this
      ensures Valid()
      ensures State() == ReleaseAll(capacity, old(State()))
      ensures SameContent(old(State()), State())
    {
      ghost var s := State();
      ReleaseAllKeeps(capacity, s);
      var pool := free;
      var k: nat := 0;
      while k < |used|
        invariant k <= |used| && used == s.used
        invariant forall x :: x in pool <==> x in s.free || x in s.used[..k]
        modifies {}
      {
        Grow(used, k);
        pool := pool + {used[k]};
        k := k + 1;
      }
      Whole(s.used);
      ListedAndFree(capacity, s, pool);
      free := pool;
      used := [];
      index := map[];
      assert State() == ReleaseAll(capacity, s);
    }

    /**
     * `flushAllByFd(fd, release)`: only frames of pages of `fd` are written
     * back; with `release` they also leave the list, in place, and the
     * index, so no resident page belongs to `fd` afterwards.  Frames of
     * other descriptors keep their residency, dirty flag and order.
     */
    method FlushAllByFd(fd: int, release: bool)
      requires Valid()
      modifies this, frames
      ensures Valid()
      ensures State() == FlushFd(old(State()), fd, release, old(used))
    {
      FlushFdDone(capacity, State(), fd, release);
      FdLoop(fd, release);
    }

    /** The loop of `flushAllByFd`, erasing released frames from the list in place. */
    method FdLoop(fd: int, release: bool)
      requires Valid()
      modifies this, frames
      ensures State() == FlushFd(old(State()), fd, release, old(used))
      ensures !release ==> used == old(used)
      ensures release ==> used == OtherFd(old(used), old(frames[..]), fd)
    {
      ghost var s0 := State();
      ghost var j: nat := 0;
      var i: nat := 0;
      FdLoopStart(s0, fd, release);
      FdRoundsReady(capacity, s0, fd, release);
      while i < |used|
        invariant j <= |s0.used| && (used, i) == FdReached(s0.used, s0.frames, fd, release, j)
        invariant State() == FlushFd(s0, fd, release, s0.used[..j])
        decreases |s0.used| - j
      {
        i := FdRound(fd, release, i, s0, j);
        j := j + 1;
      }
      FdLoopDone(s0, fd, release, j, State(), i);
    }

    /**
     * Round `j` of the loop of `flushAllByFd` started in state `s0`, at list
     * position `i`: the frame there is written back and, with `release`,
     * erased from the list when its page belongs to `fd`.  It returns the
     * position of the next frame.
     */
    method FdRound(fd: int, release: bool, i: nat, ghost s0: Pool, ghost j: nat) returns (next: nat)
      requires j <= |s0.used| && RoundReady(s0, fd, release, j)
      requires (used, i) == FdReached(s0.used, s0.frames, fd, release, j) && i < |used|
      requires State() == FlushFd(s0, fd, release, s0.used[..j])
      modifies this, frames
      ensures j + 1 <= |s0.used| && (used, next) == FdReached(s0.used, s0.frames, fd, release, j + 1)
      ensures State() == FlushFd(s0, fd, release, s0.used[..j + 1])
    {
      ghost var s := State();
      FdRoundPlan(s0, fd, release, j, s, i);
      var f := used[i];
      next := i + 1;
      if frames[f].id.fd == fd {
        WriteToDisk(f);
        if release {
          ReleaseAt(i);
          next := i;
        }
      }
    }

    /** The release half of `flush(p, true)` inside `flushAllByFd`: erase the frame at list position `i`. */
    method ReleaseAt(i: nat)
      requires i < |used| && used[i] < frames.Length && Distinct(used)
      modifies this`used, this`index, this`free
      ensures State() == Release(old(State()), old(used[i]))
      ensures used == old(used[..i] + used[i + 1..])
    {
      var f := used[i];
      ghost var s := State();
      WithoutAt(used, i);
      var id := frames[f].id;
      index := index - {id};
      free := free + {f};
      used := used[..i] + used[i + 1..];
      assert State() == Release(s, f);
    }
  }

  /**
   * `FileManager::closeFile(fd, pm)` as far as the pool goes: every page of
   * `fd` is written back and released before the descriptor is closed, so
   * no frame can later alias a reused descriptor.
   */
  method CloseFile(fd: int, pm: PageManager)
    requires pm.Valid()
    modifies pm, pm.frames
    ensures pm.Valid()
    ensures forall q :: q in pm.index ==> q.fd != fd
    ensures forall q: Pid :: q.fd == fd ==> DiskPage(pm.disk, q) == old(pm.Logical(q))
    ensures forall q :: pm.Logical(q) == old(pm.Logical(q))
  {
    FlushFdDone(pm.capacity, pm.State(), fd, true);
    pm.FlushAllByFd(fd, true);
  }

  /**
   * The first half of the persistence round trip of test/main.cc:61-88:
   * store `a` into page 0 and `b` into page 2 of `fd`, then close the file.
   * Both pages' bytes are on disk afterwards and no frame holds them.
   */
  method WriteAndClose(pm: PageManager, fd: int, a: seq<byte>, b: seq<byte>)
    requires pm.Valid() && |a| == PAGESIZE && |b| == PAGESIZE
    modifies pm, pm.frames
    ensures pm.Valid()
    ensures DiskPage(pm.disk, Pid(fd, 0)) == a && DiskPage(pm.disk, Pid(fd, 2)) == b
    ensures pm.Logical(Pid(fd, 0)) == a && pm.Logical(Pid(fd, 2)) == b
  {
    var f0 := pm.GetPage(Pid(fd, 0));
    pm.Write(f0, a);
    var f2 := pm.GetPage(Pid(fd, 2));
    pm.Write(f2, b);
    CloseFile(fd, pm);
  }

  /**
   * The persistence round trip of test/main.cc:61-88: write pages 0 and 2,
   * close the file, read both pages again and get the written bytes back.
   */
  method PersistenceRoundTrip(pm: PageManager, fd: int, a: seq<byte>, b: seq<byte>) returns (a': seq<byte>, b': seq<byte>)
    requires pm.Valid() && |a| == PAGESIZE && |b| == PAGESIZE
    modifies pm, pm.frames
    ensures a' == a && b' == b
  {
    WriteAndClose(pm, fd, a, b);
    var g0 := pm.GetPage(Pid(fd, 0));
    a' := pm.frames[g0].data;
    var g2 := pm.GetPage(Pid(fd, 2));
    b' := pm.frames[g2].data;
  }
}

/** load_segment of Assignment 6_2's process.c: part of a file, followed by zeros, becomes
    pages of the new process. */
module Loader {
  import opened Bytes
  import opened Arguments
  import opened UserMemory

  /** file_read at position pos: up to n bytes, fewer at the end of the file. */
  function FileRead(file: seq<Byte>, pos: nat, n: nat): (b: seq<Byte>)
    ensures |b| <= n
    ensures |b| == n && n > 0 ==> pos + n <= |file| && b == file[pos..pos + n]
  {
    if pos > |file| then [] else if pos + n <= |file| then file[pos..pos + n] else file[pos..]
  }

  // ---------- The pages of one segment ----------

  /** Byte k of a segment that starts at file offset ofs: file contents first, then zeros. */
  function SegmentByte(file: seq<Byte>, ofs: nat, readBytes: nat, k: nat): Byte {
    if k < readBytes && ofs + k < |file| then file[ofs + k] else 0
  }

  /** Page number j of that segment. */
  function SegmentPage(file: seq<Byte>, ofs: nat, readBytes: nat, j: nat): (d: Page)
    ensures forall i :: 0 <= i < PGSIZE ==> d[i] == SegmentByte(file, ofs, readBytes, j * PGSIZE + i)
  {
    var d := seq<Byte>(PGSIZE, i requires 0 <= i < PGSIZE => SegmentByte(file, ofs, readBytes, j * PGSIZE + i));
    d
  }

  /** The j-th page from user page upage on. */
  function PageNo(upage: int, j: nat): int {
    upage + j * PGSIZE
  }

  /** Image v with the first n pages of a segment added from user page upage on. */
  function WithSegment(v: UserImage, file: seq<Byte>, ofs: nat, upage: int, readBytes: nat, writable: bool,
                       n: nat): UserImage {
    if n == 0 then v
    else WithSegment(v, file, ofs, upage, readBytes, writable, n - 1)
         [PageNo(upage, n - 1) := PageView(SegmentPage(file, ofs, readBytes, n - 1), writable)]
  }

  ghost predicate FreshPages(v: UserImage, upage: int, n: nat) {
    forall j :: 0 <= j < n ==> PageNo(upage, j) !in v
  }

  lemma {:induction false} SegmentIsThere(v: UserImage, file: seq<Byte>, ofs: nat, upage: int, readBytes: nat,
                        writable: bool, n: nat, j: nat)
    requires j < n
    ensures var w := WithSegment(v, file, ofs, upage, readBytes, writable, n);
            PageNo(upage, j) in w && w[PageNo(upage, j)] == PageView(SegmentPage(file, ofs, readBytes, j), writable)
  {
    if j < n - 1 {
      SegmentIsThere(v, file, ofs, upage, readBytes, writable, n - 1, j);
    }
  }

  lemma {:induction false} NothingElse(v: UserImage, file: seq<Byte>, ofs: nat, upage: int, readBytes: nat,
                        writable: bool, n: nat, u: int)
    requires u in WithSegment(v, file, ofs, upage, readBytes, writable, n) && u !in v
    ensures exists j :: 0 <= j < n && u == PageNo(upage, j)
  {
    if u != PageNo(upage, n - 1) {
      NothingElse(v, file, ofs, upage, readBytes, writable, n - 1, u);
    }
  }

  lemma {:induction false} OldPagesStay(v: UserImage, file: seq<Byte>, ofs: nat, upage: int, readBytes: nat,
                        writable: bool, n: nat)
    requires FreshPages(v, upage, n)
    ensures var w := WithSegment(v, file, ofs, upage, readBytes, writable, n);
            forall u :: u in v ==> u in w && w[u] == v[u]
  {
    if n > 0 {
      OldPagesStay(v, file, ofs, upage, readBytes, writable, n - 1);
    }
  }

  lemma {:induction false} NextPageIsFresh(v: UserImage, file: seq<Byte>, ofs: nat, upage: int, readBytes: nat,
                        writable: bool, n: nat)
    requires FreshPages(v, upage, n)
    requires PageNo(upage, n) !in WithSegment(v, file, ofs, upage, readBytes, writable, n)
    ensures FreshPages(v, upage, n + 1)
    ensures WithSegment(v, file, ofs, upage, readBytes, writable, n + 1)
         == WithSegment(v, file, ofs, upage, readBytes, writable, n)
            [PageNo(upage, n) := PageView(SegmentPage(file, ofs, readBytes, n), writable)]
  {
    OldPagesStay(v, file, ofs, upage, readBytes, writable, n);
  }

  /** Bytes still to read before page j. */
  function Left(readBytes: nat, j: nat): (n: nat)
    ensures n <= readBytes && (j == 0 ==> n == readBytes)
  {
    if readBytes > j * PGSIZE then readBytes - j * PGSIZE else 0
  }

  /** Bytes to read into page j. */
  function Want(readBytes: nat, j: nat): nat {
    if Left(readBytes, j) < PGSIZE then Left(readBytes, j) else PGSIZE
  }

  /** What page number j should hold when the reads before it succeeded. */
  lemma PageFilled(file: seq<Byte>, ofs: nat, readBytes: nat, j: nat, pos: nat, b: seq<Byte>)
    requires |b| == Want(readBytes, j) && b == FileRead(file, pos, |b|)
    requires pos == ofs + readBytes - Left(readBytes, j)
    ensures b + Zeros(PGSIZE - |b|) == SegmentPage(file, ofs, readBytes, j)
    ensures readBytes > Left(readBytes, j + 1) && |b| > 0 ==> pos + |b| <= |file|
  {
    var d := b + Zeros(PGSIZE - |b|);
    forall i | 0 <= i < PGSIZE
      ensures d[i] == SegmentByte(file, ofs, readBytes, j * PGSIZE + i)
    {
      if i < |b| {
        assert d[i] == file[pos + i];
      }
    }
  }

  /** The body of load_segment's loop: one page read, zero-filled and installed. A page
      that cannot be read or installed goes back to the pool. full holds the user pages
      for which pagedir_set_page would find no memory for a page table. */
  method LoadPage(m: AddressSpace, file: seq<Byte>, pos: nat, pageReadBytes: nat, upage: int, writable: bool,
                  full: set<int>)
    returns (ok: bool)
    requires m.Valid() && pageReadBytes <= PGSIZE && upage % PGSIZE == 0 && 0 <= upage < PHYS_BASE
    modifies m
    ensures m.Valid() && m.frames.Keys == old(m.frames.Keys)
    ensures ok <==> |old(m.free)| > 0 && |FileRead(file, pos, pageReadBytes)| == pageReadBytes
                    && upage !in old(m.View()) && upage !in full
    ensures |m.free| == |old(m.free)| - if ok then 1 else 0
    ensures !ok ==> m.View() == old(m.View())
    ensures ok ==>
              var d := FileRead(file, pos, pageReadBytes) + Zeros(PGSIZE - pageReadBytes);
              m.View() == old(m.View())[upage := PageView(d, writable)]
  {
    ok := false;
    var kpage := m.PallocGetPage();
    if kpage.Some? {
      var b := FileRead(file, pos, pageReadBytes);
      if |b| != pageReadBytes {
        m.PallocFreePage(kpage.value);
        return;
      }
      m.FillPage(kpage.value, b + Zeros(PGSIZE - pageReadBytes));
      ok := m.InstallPage(upage, kpage.value, writable, upage in full);
      if !ok {
        m.PallocFreePage(kpage.value);
      }
    }
  }

  datatype Segment = Segment(file: seq<Byte>, ofs: nat, upage: int, readBytes: nat, zeroBytes: nat, writable: bool)

  /** What load_segment asserts on entry, with the range pagedir_set_page demands. */
  ghost predicate PageAligned(s: Segment) {
    && 0 <= s.upage && s.upage + s.readBytes + s.zeroBytes <= PHYS_BASE
    && (s.readBytes + s.zeroBytes) % PGSIZE == 0 && s.upage % PGSIZE == 0 && s.ofs % PGSIZE == 0
  }

  /** v is v0 with the first n pages of segment s added, none of them mapped in v0. */
  ghost predicate Added(v0: UserImage, v: UserImage, s: Segment, n: nat) {
    && FreshPages(v0, s.upage, n)
    && v == WithSegment(v0, s.file, s.ofs, s.upage, s.readBytes, s.writable, n)
  }

  /** Before page j: what load_segment's variables hold and what has been mapped. */
  ghost predicate AtPage(v0: UserImage, v: UserImage, s: Segment, j: nat, left: int, zeros: int, page: int, pos: int) {
    && left == Left(s.readBytes, j)
    && 0 <= zeros == s.readBytes + s.zeroBytes - j * PGSIZE - left
    && page == PageNo(s.upage, j) && pos == s.ofs + s.readBytes - left
    && (s.readBytes > left ==> pos <= |s.file|)
    && Added(v0, v, s, j)
  }

  /** The counters of load_segment never underflow: while anything is left, a whole page
      fits the remaining total and the page stays below PHYS_BASE. */
  lemma RoomForPage(v0: UserImage, v: UserImage, s: Segment, j: nat, left: int, zeros: int, page: int, pos: int)
    requires PageAligned(s) && AtPage(v0, v, s, j, left, zeros, page, pos) && (left > 0 || zeros > 0)
    ensures (j + 1) * PGSIZE <= s.readBytes + s.zeroBytes
    ensures page % PGSIZE == 0 && 0 <= page < PHYS_BASE && left >= 0 && pos >= 0
    ensures left < PGSIZE ==> PGSIZE - left <= zeros
  {}

  lemma NextPage(v0: UserImage, v: UserImage, s: Segment, j: nat, left: int, zeros: int, page: int, pos: int,
                 full: set<int>)
    requires PageAligned(s) && AtPage(v0, v, s, j, left, zeros, page, pos)
    requires (j + 1) * PGSIZE <= s.readBytes + s.zeroBytes && pos >= 0 && left >= 0
    requires page !in v && page !in full && TablesFit(s, j, full)
    requires var r := if left < PGSIZE then left else PGSIZE; |FileRead(s.file, pos, r)| == r
    ensures var r := if left < PGSIZE then left else PGSIZE;
            var b := FileRead(s.file, pos, r);
            AtPage(v0, v[page := PageView(b + Zeros(PGSIZE - r), s.writable)], s, j + 1,
                   left - r, zeros - (PGSIZE - r), page + PGSIZE, pos + r)
    ensures TablesFit(s, j + 1, full)
  {
    var r := if left < PGSIZE then left else PGSIZE;
    PageFilled(s.file, s.ofs, s.readBytes, j, pos, FileRead(s.file, pos, r));
    NextPageIsFresh(v0, s.file, s.ofs, s.upage, s.readBytes, s.writable, j);
  }

  function PageCount(s: Segment): nat {
    (s.readBytes + s.zeroBytes) / PGSIZE
  }

  /** None of the first n pages of s is in full. */
  ghost predicate TablesFit(s: Segment, n: nat, full: set<int>) {
    forall j :: 0 <= j < n ==> PageNo(s.upage, j) !in full
  }

  /** Everything load_segment needs for s: file bytes, unmapped user pages, free frames. */
  ghost predicate CanAdd(v0: UserImage, s: Segment, frames: nat, full: set<int>) {
    && PageCount(s) <= frames && FreshPages(v0, s.upage, PageCount(s)) && TablesFit(s, PageCount(s), full)
    && (s.readBytes > 0 ==> s.ofs + s.readBytes <= |s.file|)
  }

  /** load_segment. It succeeds exactly when the file has the bytes, the user pages are
      unmapped and there are frames; then exactly the pages of the segment have been added.
      On failure a prefix of them has been. Either way no page of the pool is lost. */
  method LoadSegment(m: AddressSpace, s: Segment, full: set<int>) returns (ok: bool)
    requires m.Valid() && PageAligned(s)
    modifies m
    ensures m.Valid() && m.frames.Keys == old(m.frames.Keys)
    ensures ok <==> CanAdd(old(m.View()), s, |old(m.free)|, full)
    ensures ok ==> Added(old(m.View()), m.View(), s, PageCount(s)) && |m.free| == |old(m.free)| - PageCount(s)
    ensures !ok ==> exists n: nat :: n < PageCount(s) && Added(old(m.View()), m.View(), s, n)
  {
    hide AtPage, Added, PageAligned, CanAdd, TablesFit, PageCount, m.View, m.Disjoint, Mapped, FileRead, Zeros;
    var left, zeros, page, pos := s.readBytes, s.zeroBytes, s.upage, s.ofs;
    ghost var j: nat := 0;
    ghost var v0, frames := m.View(), |m.free|;
    AtFirstPage(v0, s, full);
    while left > 0 || zeros > 0
      invariant m.Valid() && m.frames.Keys == old(m.frames.Keys) && |m.free| == frames - j
      invariant AtPage(v0, m.View(), s, j, left, zeros, page, pos) && TablesFit(s, j, full)
      invariant 0 <= left && 0 <= zeros
      decreases left + zeros
    {
      RoomForPage(v0, m.View(), s, j, left, zeros, page, pos);
      var pageReadBytes := if left < PGSIZE then left else PGSIZE;
      var pageZeroBytes := PGSIZE - pageReadBytes;
      ghost var v := m.View();
      ok := LoadPage(m, s.file, pos, pageReadBytes, page, s.writable, full);
      if !ok {
        AddedSoFar(v0, v, s, j, left, zeros, page, pos);
        NoRoom(v0, v, s, j, left, zeros, page, pos, frames, full);
        return;
      }
      NextPage(v0, v, s, j, left, zeros, page, pos, full);
      left := left - pageReadBytes;
      zeros := zeros - pageZeroBytes;
      page := page + PGSIZE;
      pos := pos + pageReadBytes;
      j := j + 1;
    }
    AtLastPage(v0, m.View(), s, j, left, zeros, page, pos, frames, full);
    ok := true;
  }

  lemma AtFirstPage(v: UserImage, s: Segment, full: set<int>)
    ensures AtPage(v, v, s, 0, s.readBytes, s.zeroBytes, s.upage, s.ofs) && TablesFit(s, 0, full)
  {}

  lemma AtLastPage(v0: UserImage, v: UserImage, s: Segment, j: nat, left: int, zeros: int, page: int, pos: int,
                   frames: nat, full: set<int>)
    requires AtPage(v0, v, s, j, left, zeros, page, pos) && left <= 0 && zeros <= 0
    requires TablesFit(s, j, full) && j <= frames
    ensures j == PageCount(s) && Added(v0, v, s, PageCount(s))
    ensures CanAdd(v0, s, frames, full)
  {}

  lemma AddedSoFar(v0: UserImage, v: UserImage, s: Segment, j: nat, left: int, zeros: int, page: int, pos: int)
    requires AtPage(v0, v, s, j, left, zeros, page, pos)
    requires (j + 1) * PGSIZE <= s.readBytes + s.zeroBytes
    ensures Added(v0, v, s, j) && j < PageCount(s)
  {}

  /** A page that cannot be loaded is one the segment needs and cannot have. */
  lemma NoRoom(v0: UserImage, v: UserImage, s: Segment, j: nat, left: int, zeros: int, page: int, pos: int,
               frames: nat, full: set<int>)
    requires AtPage(v0, v, s, j, left, zeros, page, pos) && j < PageCount(s) && 0 <= left && 0 <= pos
    requires var r := if left < PGSIZE then left else PGSIZE;
             frames == j || |FileRead(s.file, pos, r)| != r || page in v || page in full
    ensures !CanAdd(v0, s, frames, full)
  {
    if page in v && page !in v0 {
      NothingElse(v0, s.file, s.ofs, s.upage, s.readBytes, s.writable, j, page);
    }
  }
}

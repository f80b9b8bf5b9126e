/** load of Assignment 6_2's process.c as a whole: what a loaded program finds in its
    address space, measured against the meaning of PT_LOAD in the TIS ELF Specification
    version 1.2, Book I, chapter 2. */
module LoadProgram {
  import opened Bytes
  import opened Arguments
  import opened UserMemory
  import opened PushArguments
  import opened Elf
  import opened Loader
  import opened Wrappers

  // ---------- What the headers mean ----------

  /** The byte the process sees at address a. */
  function ByteAt(v: UserImage, a: int): Option<Byte> {
    var page := a - a % PGSIZE;
    if page in v then Some(v[page].data[a % PGSIZE]) else None
  }

  /** User page u holds part of the region [vaddr, vaddr + memsz). */
  ghost predicate Touches(h: Phdr, u: int) {
    h.pType == PT_LOAD && u % PGSIZE == 0 && u < h.vaddr + h.memsz && h.vaddr < u + PGSIZE
  }

  ghost predicate BytePresent(v: UserImage, file: seq<Byte>, h: Phdr, k: nat)
    requires h.offset + h.filesz <= |file|
  {
    ByteAt(v, h.vaddr + k) == Some(if k < h.filesz then file[h.offset + k] else 0)
  }

  /** The meaning of one PT_LOAD header: filesz bytes of the file from offset on appear at
      vaddr, followed by zeros up to memsz; the pages are writable as the flags say. */
  ghost predicate Present(v: UserImage, file: seq<Byte>, h: Phdr) {
    && Loadable(h, |file|) && h.offset + h.filesz <= |file|
    && (forall k :: 0 <= k < h.memsz ==> BytePresent(v, file, h, k))
    && (forall u :: Touches(h, u) ==> u in v && v[u].writable == (h.flags / 2 % 2 == 1))
  }

  /** All PT_LOAD headers of hs hold at once, no page serves two of them, and nothing else
      is mapped; no header asks for what load does not support. */
  ghost predicate Faithful(v: UserImage, file: seq<Byte>, hs: seq<Phdr>) {
    && (forall i :: 0 <= i < |hs| && hs[i].pType == PT_LOAD ==> Present(v, file, hs[i]))
    && (forall i :: 0 <= i < |hs| ==> hs[i].pType != PT_DYNAMIC && hs[i].pType != PT_INTERP && hs[i].pType != PT_SHLIB)
    && (forall i, j, u :: 0 <= i < j < |hs| && Touches(hs[i], u) ==> !Touches(hs[j], u))
    && (forall u :: u in v ==> exists i :: 0 <= i < |hs| && Touches(hs[i], u))
  }

  // ---------- One more segment ----------

  function SegmentOf(file: seq<Byte>, h: Phdr): Segment
    requires ValidateSegment(h, |file|) && |file| < 0x8000_0000
  {
    AcceptedIsSafe(h, |file|);
    var a := ArgsFor(h);
    Segment(file, a.filePage, a.memPage, a.readBytes, a.zeroBytes, a.writable)
  }

  lemma SegmentAligned(file: seq<Byte>, h: Phdr)
    requires ValidateSegment(h, |file|) && |file| < 0x8000_0000
    ensures PageAligned(SegmentOf(file, h)) && SegmentOf(file, h).file == file
  {
    AcceptedIsSafe(h, |file|);
  }

  lemma SegmentBytes(v0: UserImage, v: UserImage, s: Segment, k: nat)
    requires PageAligned(s) && Added(v0, v, s, PageCount(s)) && k < s.readBytes + s.zeroBytes
    ensures ByteAt(v, s.upage + k) == Some(SegmentByte(s.file, s.ofs, s.readBytes, k))
  {
    var j := k / PGSIZE;
    SegmentIsThere(v0, s.file, s.ofs, s.upage, s.readBytes, s.writable, PageCount(s), j);
    assert (s.upage + k) % PGSIZE == k % PGSIZE;
    assert s.upage + k - k % PGSIZE == PageNo(s.upage, j);
  }

  lemma TouchedPages(file: seq<Byte>, h: Phdr, u: int)
    requires ValidateSegment(h, |file|) && |file| < 0x8000_0000 && h.pType == PT_LOAD
    ensures var s := SegmentOf(file, h);
            Touches(h, u) <==> exists j :: 0 <= j < PageCount(s) && u == PageNo(s.upage, j)
  {
    AcceptedIsSafe(h, |file|);
    var s := SegmentOf(file, h);
    var len := h.vaddr % PGSIZE + h.memsz;
    hide ValidateSegment, ArgsFor, SegmentOf;
    if Touches(h, u) {
      var j := PageIndex(s.upage, h.vaddr, len, s.readBytes + s.zeroBytes, u);
    }
    if j :| 0 <= j < PageCount(s) && u == PageNo(s.upage, j) {
      PageTouched(s.upage, h.vaddr, len, s.readBytes + s.zeroBytes, j);
    }
  }

  lemma PageIndex(upage: int, vaddr: int, len: int, total: int, u: int) returns (j: nat)
    requires upage % PGSIZE == 0 && u % PGSIZE == 0 && total % PGSIZE == 0 && upage <= vaddr < upage + PGSIZE
    requires len <= total && u < upage + len && vaddr < u + PGSIZE
    ensures j < total / PGSIZE && u == PageNo(upage, j)
  {
    var q := (u - upage) / PGSIZE;
    assert u == upage + q * PGSIZE;
    j := q;
  }

  lemma PageTouched(upage: int, vaddr: int, len: int, total: int, j: nat)
    requires upage % PGSIZE == 0 && total % PGSIZE == 0 && upage <= vaddr < upage + PGSIZE
    requires vaddr - upage < len && total < len + PGSIZE && j < total / PGSIZE
    ensures var u := PageNo(upage, j); u % PGSIZE == 0 && u < upage + len && vaddr < u + PGSIZE
  {}

  lemma SegmentPresent(v0: UserImage, v: UserImage, file: seq<Byte>, h: Phdr)
    requires ValidateSegment(h, |file|) && |file| < 0x8000_0000 && h.pType == PT_LOAD
    requires var s := SegmentOf(file, h);
             Added(v0, v, s, PageCount(s)) && (s.readBytes > 0 ==> s.ofs + s.readBytes <= |file|)
    ensures Present(v, file, h)
  {
    var s := SegmentOf(file, h);
    AcceptedIsSafe(h, |file|);
    ValidateSegmentExact(h, |file|);
    var pageOffset := h.vaddr % PGSIZE;
    forall k | 0 <= k < h.memsz
      ensures BytePresent(v, file, h, k)
    {
      SegmentBytes(v0, v, s, pageOffset + k);
    }
    forall u | Touches(h, u)
      ensures u in v && v[u].writable == s.writable
    {
      TouchedPages(file, h, u);
      var j :| 0 <= j < PageCount(s) && u == PageNo(s.upage, j);
      SegmentIsThere(v0, s.file, s.ofs, s.upage, s.readBytes, s.writable, PageCount(s), j);
    }
  }

  lemma PresentStays(v0: UserImage, v: UserImage, file: seq<Byte>, h: Phdr)
    requires Present(v0, file, h) && (forall u :: u in v0 ==> u in v && v[u] == v0[u])
    ensures Present(v, file, h)
  {
    forall k | 0 <= k < h.memsz
      ensures BytePresent(v, file, h, k)
    {
      assert BytePresent(v0, file, h, k);
    }
  }

  /** Installing a segment keeps every earlier one: install_page refuses mapped pages. */
  lemma SegmentKeepsFaithful(v0: UserImage, v: UserImage, file: seq<Byte>, hs: seq<Phdr>, h: Phdr)
    requires ValidateSegment(h, |file|) && |file| < 0x8000_0000 && h.pType == PT_LOAD
    requires Faithful(v0, file, hs)
    requires var s := SegmentOf(file, h);
             Added(v0, v, s, PageCount(s)) && (s.readBytes > 0 ==> s.ofs + s.readBytes <= |file|)
    ensures Faithful(v, file, hs + [h])
  {
    var s, hs' := SegmentOf(file, h), hs + [h];
    SegmentPresent(v0, v, file, h);
    OldPagesStay(v0, s.file, s.ofs, s.upage, s.readBytes, s.writable, PageCount(s));
    forall i | 0 <= i < |hs'| && hs'[i].pType == PT_LOAD
      ensures Present(v, file, hs'[i])
    {
      if i < |hs| {
        PresentStays(v0, v, file, hs[i]);
      }
    }
    forall i, u | 0 <= i < |hs| && Touches(hs[i], u)
      ensures !Touches(h, u)
    {
      assert Present(v0, file, hs[i]) && u in v0;
      TouchedPages(file, h, u);
    }
    forall u | u in v
      ensures exists i :: 0 <= i < |hs'| && Touches(hs'[i], u)
    {
      if u in v0 {
        var i :| 0 <= i < |hs| && Touches(hs[i], u);
        assert Touches(hs'[i], u);
      } else {
        NothingElse(v0, s.file, s.ofs, s.upage, s.readBytes, s.writable, PageCount(s), u);
        TouchedPages(file, h, u);
        assert Touches(hs'[|hs|], u);
      }
    }
  }

  lemma IgnoredKeepsFaithful(v: UserImage, file: seq<Byte>, hs: seq<Phdr>, h: Phdr)
    requires Faithful(v, file, hs) && h.pType !in {PT_LOAD, PT_DYNAMIC, PT_INTERP, PT_SHLIB}
    ensures Faithful(v, file, hs + [h])
  {
    var hs' := hs + [h];
    forall u | u in v
      ensures exists i :: 0 <= i < |hs'| && Touches(hs'[i], u)
    {
      var i :| 0 <= i < |hs| && Touches(hs[i], u);
      assert Touches(hs'[i], u);
    }
  }

  // ---------- What load needs ----------

  /** The pages a header's region lies in. */
  function PagesOf(h: Phdr): nat {
    if h.pType == PT_LOAD then (h.vaddr % PGSIZE + h.memsz + PGSIZE - 1) / PGSIZE else 0
  }

  function PageTotal(hs: seq<Phdr>): nat {
    if hs == [] then 0 else PageTotal(hs[..|hs| - 1]) + PagesOf(hs[|hs| - 1])
  }

  /** load can deal with h: of no unsupported type and, if PT_LOAD, loadable with all its
      bytes in the file and no page in full, where page tables run out. */
  ghost predicate HeaderOk(file: seq<Byte>, h: Phdr, full: set<int>) {
    && h.pType != PT_DYNAMIC && h.pType != PT_INTERP && h.pType != PT_SHLIB
    && (h.pType == PT_LOAD ==>
          && Loadable(h, |file|) && h.offset + h.filesz <= |file|
          && forall u :: Touches(h, u) ==> u !in full)
  }

  ghost predicate ApartFrom(hs: seq<Phdr>, h: Phdr) {
    forall i, u :: 0 <= i < |hs| && Touches(hs[i], u) ==> !Touches(h, u)
  }

  /** The headers load can load together: each fine, no page wanted twice, enough frames. */
  ghost predicate Fit(file: seq<Byte>, hs: seq<Phdr>, frames: nat, full: set<int>) {
    && (forall i :: 0 <= i < |hs| ==> HeaderOk(file, hs[i], full) && ApartFrom(hs[..i], hs[i]))
    && PageTotal(hs) <= frames
  }

  lemma FitExtend(file: seq<Byte>, hs: seq<Phdr>, h: Phdr, frames: nat, full: set<int>)
    ensures PageTotal(hs + [h]) == PageTotal(hs) + PagesOf(h)
    ensures Fit(file, hs + [h], frames, full) <==>
              && Fit(file, hs, frames, full) && HeaderOk(file, h, full) && ApartFrom(hs, h)
              && PageTotal(hs + [h]) <= frames
  {
    var hs' := hs + [h];
    assert hs'[..|hs|] == hs && hs'[|hs|] == h;
    hide HeaderOk, ApartFrom;
    forall i | 0 <= i < |hs|
      ensures hs'[..i] == hs[..i] && hs'[i] == hs[i]
    {}
  }

  lemma {:induction false} FitPrefix(file: seq<Byte>, hs: seq<Phdr>, k: nat, frames: nat, full: set<int>)
    requires k <= |hs| && Fit(file, hs, frames, full)
    ensures Fit(file, hs[..k], frames, full)
    decreases |hs|
  {
    if k == |hs| {
      assert hs[..k] == hs;
    } else {
      var init := hs[..|hs| - 1];
      assert hs == init + [hs[|hs| - 1]] && init[..k] == hs[..k];
      FitExtend(file, init, hs[|hs| - 1], frames, full);
      FitPrefix(file, init, k, frames, full);
    }
  }

  lemma PagesAreCounted(file: seq<Byte>, h: Phdr)
    requires ValidateSegment(h, |file|) && |file| < 0x8000_0000 && h.pType == PT_LOAD
    ensures PageCount(SegmentOf(file, h)) == PagesOf(h)
  {
    AcceptedIsSafe(h, |file|);
    hide ValidateSegment;
  }

  /** With the headers hs in force, the pages of h are unmapped exactly if they are apart
      from those of hs. */
  lemma FreshIsApart(v: UserImage, file: seq<Byte>, hs: seq<Phdr>, h: Phdr)
    requires ValidateSegment(h, |file|) && |file| < 0x8000_0000 && h.pType == PT_LOAD && Faithful(v, file, hs)
    ensures var s := SegmentOf(file, h);
            FreshPages(v, s.upage, PageCount(s)) <==> ApartFrom(hs, h)
  {
    var s := SegmentOf(file, h);
    hide ValidateSegment, SegmentOf, PageCount, PageNo;
    if ApartFrom(hs, h) {
      forall j | 0 <= j < PageCount(s)
        ensures PageNo(s.upage, j) !in v
      {
        TouchedPages(file, h, PageNo(s.upage, j));
      }
    }
    if FreshPages(v, s.upage, PageCount(s)) {
      forall i, u | 0 <= i < |hs| && Touches(hs[i], u)
        ensures !Touches(h, u)
      {
        TouchedPages(file, h, u);
        assert Present(v, file, hs[i]);
      }
    }
  }

  lemma TablesFitIs(file: seq<Byte>, h: Phdr, full: set<int>)
    requires ValidateSegment(h, |file|) && |file| < 0x8000_0000 && h.pType == PT_LOAD
    ensures var s := SegmentOf(file, h);
            TablesFit(s, PageCount(s), full) <==> forall u :: Touches(h, u) ==> u !in full
  {
    var s := SegmentOf(file, h);
    hide ValidateSegment, SegmentOf, PageCount, PageNo;
    if TablesFit(s, PageCount(s), full) {
      forall u | Touches(h, u)
        ensures u !in full
      {
        TouchedPages(file, h, u);
      }
    }
    if forall u :: Touches(h, u) ==> u !in full {
      forall j | 0 <= j < PageCount(s)
        ensures PageNo(s.upage, j) !in full
      {
        TouchedPages(file, h, PageNo(s.upage, j));
      }
    }
  }

  lemma CanAddIs(v: UserImage, file: seq<Byte>, hs: seq<Phdr>, h: Phdr, frames: nat, full: set<int>)
    requires ValidateSegment(h, |file|) && |file| < 0x8000_0000 && h.pType == PT_LOAD && Faithful(v, file, hs)
    ensures CanAdd(v, SegmentOf(file, h), frames, full) <==>
              HeaderOk(file, h, full) && ApartFrom(hs, h) && PagesOf(h) <= frames
  {
    PagesAreCounted(file, h);
    FreshIsApart(v, file, hs, h);
    TablesFitIs(file, h, full);
    ValidateSegmentExact(h, |file|);
    AcceptedIsSafe(h, |file|);
    hide ValidateSegment, Touches, FreshPages, ApartFrom, TablesFit, PagesOf, PageCount, Faithful;
  }

  // ---------- load ----------

  datatype LoadResult =
    | Failed
    | StackOverflow  // the arguments do not fit the stack page
    | Loaded(eip: Word, esp: int)

  /** Where program header i stands in a file. */
  function HeaderOfs(phoff: int, i: nat): int {
    phoff + 32 * i
  }

  /** The n program headers in file from offset phoff on. */
  function HeadersAt(file: seq<Byte>, phoff: nat, n: nat): (hs: seq<Phdr>)
    requires HeaderOfs(phoff, n) <= |file|
    ensures |hs| == n
  {
    seq(n, i requires 0 <= i < n => PhdrOf(file[HeaderOfs(phoff, i)..HeaderOfs(phoff, i + 1)]))
  }

  /** The headers an executable header announces, if the file has them. */
  function Headers(file: seq<Byte>, ehdr: Ehdr): Option<seq<Phdr>> {
    if ehdr.phnum == 0 then Some([])
    else if 0 <= OffT(ehdr.phoff) && HeaderOfs(OffT(ehdr.phoff), ehdr.phnum) <= |file| then
      Some(HeadersAt(file, OffT(ehdr.phoff), ehdr.phnum))
    else None
  }

  /** One case of load's switch: the segment type decides. */
  method LoadHeader(m: AddressSpace, file: seq<Byte>, h: Phdr, full: set<int>, ghost hs: seq<Phdr>) returns (ok: bool)
    requires m.Valid() && |file| < 0x8000_0000 && Faithful(m.View(), file, hs)
    modifies m
    ensures m.Valid() && m.frames.Keys == old(m.frames.Keys)
    ensures ok <==> HeaderOk(file, h, full) && ApartFrom(hs, h) && PagesOf(h) <= |old(m.free)|
    ensures ok ==> Faithful(m.View(), file, hs + [h]) && |m.free| == |old(m.free)| - PagesOf(h)
  {
    if h.pType == PT_DYNAMIC || h.pType == PT_INTERP || h.pType == PT_SHLIB {
      return false;
    } else if h.pType == PT_LOAD {
      ok := LoadLoadable(m, file, h, full, hs);
    } else {
      hide m.View, m.Disjoint, Mapped;
      IgnoredKeepsFaithful(m.View(), file, hs, h);
      ok := true;
    }
  }

  method LoadLoadable(m: AddressSpace, file: seq<Byte>, h: Phdr, full: set<int>, ghost hs: seq<Phdr>) returns (ok: bool)
    requires m.Valid() && |file| < 0x8000_0000 && Faithful(m.View(), file, hs) && h.pType == PT_LOAD
    modifies m
    ensures m.Valid() && m.frames.Keys == old(m.frames.Keys)
    ensures ok <==> HeaderOk(file, h, full) && ApartFrom(hs, h) && PagesOf(h) <= |old(m.free)|
    ensures ok ==> Faithful(m.View(), file, hs + [h]) && |m.free| == |old(m.free)| - PagesOf(h)
  {
    ValidateSegmentExact(h, |file|);
    hide Faithful, SegmentOf, ValidateSegment, Added, PageAligned, CanAdd, ApartFrom, Touches, PagesOf, PageCount;
    hide m.View, m.Disjoint, Mapped;
    if !ValidateSegment(h, |file|) {
      return false;
    }
    SegmentAligned(file, h);
    PagesAreCounted(file, h);
    ghost var v0 := m.View();
    CanAddIs(v0, file, hs, h, |m.free|, full);
    ok := LoadSegment(m, SegmentOf(file, h), full);
    if ok {
      SegmentKeepsFaithful(v0, m.View(), file, hs, h);
    }
  }

  /** The loop of load after i headers: fileOfs is past them and hs holds them. */
  ghost predicate HeadersRead(file: seq<Byte>, ehdr: Ehdr, i: nat, fileOfs: int, hs: seq<Phdr>) {
    && fileOfs == HeaderOfs(OffT(ehdr.phoff), i)
    && (i > 0 ==> 0 <= OffT(ehdr.phoff) && fileOfs <= |file|)
    && hs == if i == 0 then [] else HeadersAt(file, OffT(ehdr.phoff), i)
  }

  /** The headers hs have been loaded one after the other, starting with frames free. */
  ghost predicate LoadedSoFar(m: AddressSpace, file: seq<Byte>, hs: seq<Phdr>, frames: nat, full: set<int>)
    reads m
  {
    m.Valid() && Faithful(m.View(), file, hs) && Fit(file, hs, frames, full) && |m.free| == frames - PageTotal(hs)
  }

  method LoadNextHeader(m: AddressSpace, file: seq<Byte>, h: Phdr, full: set<int>, ghost hs: seq<Phdr>,
                        ghost frames: nat)
    returns (ok: bool)
    requires |file| < 0x8000_0000 && LoadedSoFar(m, file, hs, frames, full)
    modifies m
    ensures m.Valid() && m.frames.Keys == old(m.frames.Keys)
    ensures ok <==> Fit(file, hs + [h], frames, full)
    ensures ok ==> LoadedSoFar(m, file, hs + [h], frames, full)
  {
    hide Faithful, Fit, PageTotal, PagesOf, HeaderOk, ApartFrom, m.View, m.Disjoint, Mapped;
    FitExtend(file, hs, h, frames, full);
    ok := LoadHeader(m, file, h, full, hs);
  }

  /** The loop over the program headers succeeds exactly when they fit. */
  method LoadHeaders(m: AddressSpace, file: seq<Byte>, ehdr: Ehdr, full: set<int>) returns (ok: bool)
    requires m.Valid() && m.View() == map[] && |file| < 0x8000_0000 && GoodEhdr(ehdr)
    modifies m
    ensures m.Valid() && m.frames.Keys == old(m.frames.Keys)
    ensures ok <==> Headers(file, ehdr).Some? && Fit(file, Headers(file, ehdr).value, |old(m.free)|, full)
    ensures ok ==> LoadedSoFar(m, file, Headers(file, ehdr).value, |old(m.free)|, full)
  {
    var fileOfs := OffT(ehdr.phoff);
    ghost var hs: seq<Phdr> := [];
    ghost var frames := |m.free|;
    hide LoadedSoFar, Fit, HeadersRead, Headers, GoodEhdr, OffT, FileRead, m.Holding;
    NothingLoaded(m, file, ehdr, full);
    ok := true;
    var i := 0;
    while i < ehdr.phnum
      invariant i <= ehdr.phnum && HeadersRead(file, ehdr, i, fileOfs, hs)
      invariant m.Valid() && m.frames.Keys == old(m.frames.Keys)
      invariant LoadedSoFar(m, file, hs, frames, full)
    {
      if fileOfs < 0 || fileOfs > |file| || |FileRead(file, fileOfs, PHDR_SIZE)| != PHDR_SIZE {
        MissingHeader(file, ehdr, i, fileOfs, hs);
        return false;
      }
      var phdr := PhdrOf(FileRead(file, fileOfs, PHDR_SIZE));
      OneMoreRead(file, ehdr, i, fileOfs, hs);
      ok := LoadNextHeader(m, file, phdr, full, hs, frames);
      fileOfs := fileOfs + PHDR_SIZE;
      hs := hs + [phdr];
      i := i + 1;
      if !ok {
        NotFit(file, ehdr, i, fileOfs, hs, frames, full);
        return;
      }
    }
    AllLoaded(m, file, ehdr, fileOfs, hs, frames, full);
  }

  lemma NothingLoaded(m: AddressSpace, file: seq<Byte>, ehdr: Ehdr, full: set<int>)
    requires m.Valid() && m.View() == map[]
    ensures LoadedSoFar(m, file, [], |m.free|, full) && HeadersRead(file, ehdr, 0, OffT(ehdr.phoff), [])
  {}

  lemma AllLoaded(m: AddressSpace, file: seq<Byte>, ehdr: Ehdr, fileOfs: int, hs: seq<Phdr>, frames: nat,
                  full: set<int>)
    requires LoadedSoFar(m, file, hs, frames, full) && HeadersRead(file, ehdr, ehdr.phnum, fileOfs, hs)
    ensures Fit(file, hs, frames, full) && Headers(file, ehdr) == Some(hs)
  {
    hide Fit, Faithful;
  }

  lemma MissingHeader(file: seq<Byte>, ehdr: Ehdr, i: nat, fileOfs: int, hs: seq<Phdr>)
    requires HeadersRead(file, ehdr, i, fileOfs, hs) && i < ehdr.phnum
    requires fileOfs < 0 || fileOfs > |file| || |FileRead(file, fileOfs, PHDR_SIZE)| != PHDR_SIZE
    ensures Headers(file, ehdr).None?
  {}

  lemma OneMoreRead(file: seq<Byte>, ehdr: Ehdr, i: nat, fileOfs: nat, hs: seq<Phdr>)
    requires HeadersRead(file, ehdr, i, fileOfs, hs) && |FileRead(file, fileOfs, PHDR_SIZE)| == PHDR_SIZE
    ensures HeadersRead(file, ehdr, i + 1, fileOfs + PHDR_SIZE, hs + [PhdrOf(FileRead(file, fileOfs, PHDR_SIZE))])
  {
    var phoff := OffT(ehdr.phoff);
    assert FileRead(file, fileOfs, PHDR_SIZE) == file[HeaderOfs(phoff, i)..HeaderOfs(phoff, i + 1)];
    hide FileRead, PhdrOf;
    NextHeader(file, phoff, i);
    hide HeadersAt, OffT;
  }

  lemma NextHeader(file: seq<Byte>, phoff: nat, i: nat)
    requires HeaderOfs(phoff, i + 1) <= |file|
    ensures HeadersAt(file, phoff, i + 1) ==
              HeadersAt(file, phoff, i) + [PhdrOf(file[HeaderOfs(phoff, i)..HeaderOfs(phoff, i + 1)])]
  {
    hide PhdrOf;
  }

  lemma NotFit(file: seq<Byte>, ehdr: Ehdr, k: nat, fileOfs: int, hs: seq<Phdr>, frames: nat, full: set<int>)
    requires 0 < k <= ehdr.phnum && HeadersRead(file, ehdr, k, fileOfs, hs) && !Fit(file, hs, frames, full)
    ensures Headers(file, ehdr).Some? ==> !Fit(file, Headers(file, ehdr).value, frames, full)
  {
    var headers := Headers(file, ehdr);
    hide PhdrOf, Fit;
    if headers.Some? {
      assert headers.value[..k] == hs;
      if Fit(file, headers.value, frames, full) {
        FitPrefix(file, headers.value, k, frames, full);
      }
    }
  }

  /** The executable header, if the file has a good one. */
  function GoodHeader(file: seq<Byte>): Option<Ehdr> {
    if |file| >= EHDR_SIZE && GoodEhdr(EhdrAt(file[..EHDR_SIZE])) then Some(EhdrAt(file[..EHDR_SIZE])) else None
  }

  /** The program headers the file announces, if it is a good executable that has them. */
  function AllHeaders(file: seq<Byte>): Option<seq<Phdr>> {
    if GoodHeader(file).Some? then Headers(file, GoodHeader(file).value) else None
  }

  /** file starts with executable header r, and the program headers rs stand one after the
      other from offset phoff on. */
  ghost predicate LaidOut(file: seq<Byte>, r: RawEhdr, rs: seq<RawPhdr>) {
    && |r.ident| == 16 && |file| >= EHDR_SIZE && file[..EHDR_SIZE] == RawBytes(r)
    && r.phnum == |rs| && r.phoff + 32 * |rs| <= |file| < 0x8000_0000
    && forall i :: 0 <= i < |rs| ==> file[r.phoff + 32 * i..r.phoff + 32 * i + 32] == Words(RawWords(rs[i]))
  }

  /** From the bytes of a file with a good executable header load gets the entry point and
      exactly the program headers laid out there, in order. */
  lemma AllHeadersAre(file: seq<Byte>, r: RawEhdr, rs: seq<RawPhdr>)
    requires LaidOut(file, r, rs) && GoodEhdr(EhdrAt(RawBytes(r)))
    ensures GoodHeader(file).Some? && GoodHeader(file).value.entry == r.entry
    ensures AllHeaders(file).Some? && |AllHeaders(file).value| == |rs|
    ensures forall i :: 0 <= i < |rs| ==>
              var h := rs[i];
              AllHeaders(file).value[i] == Phdr(h.pType, h.offset, h.vaddr, h.filesz, h.memsz, h.flags)
  {
    hide Words, RawBytes, EhdrAt, PhdrOf, GoodEhdr, RawWords;
    EhdrLayout(r);
    forall i | 0 <= i < |rs|
      ensures PhdrOf(file[HeaderOfs(r.phoff, i)..HeaderOfs(r.phoff, i + 1)])
           == Phdr(rs[i].pType, rs[i].offset, rs[i].vaddr, rs[i].filesz, rs[i].memsz, rs[i].flags)
    {
      PhdrLayout(rs[i]);
    }
  }

  /** Exactly what a file must be for load to succeed up to the arguments: good headers
      that fit together, apart from the stack page, with one frame to spare for it. */
  ghost predicate LoadableFile(file: seq<Byte>, frames: nat, full: set<int>) {
    && AllHeaders(file).Some?
    && var hs := AllHeaders(file).value;
    && Fit(file, hs, frames, full) && PageTotal(hs) < frames
    && STACK_PAGE !in full && forall i :: 0 <= i < |hs| ==> !Touches(hs[i], STACK_PAGE)
  }

  /** What a loaded program finds: every program header is in force at once, the only
      other page is the stack, and main will read the command line's words as its
      arguments. */
  ghost predicate LoadedWell(v: UserImage, file: seq<Byte>, cmd: seq<Byte>, eip: Word, esp: int) {
    && AllHeaders(file).Some? && eip == GoodHeader(file).value.entry
    && STACK_PAGE in v && v[STACK_PAGE].writable
    && Faithful(v - {STACK_PAGE}, file, AllHeaders(file).value)
    && esp % 4 == 0 && Decode(v[STACK_PAGE].data, esp) == Some(AsSeen(Tokens(cmd)))
  }

  lemma StackIsFree(v: UserImage, file: seq<Byte>, hs: seq<Phdr>)
    requires Faithful(v, file, hs)
    ensures STACK_PAGE !in v <==> forall i :: 0 <= i < |hs| ==> !Touches(hs[i], STACK_PAGE)
  {
    forall i | 0 <= i < |hs| && Touches(hs[i], STACK_PAGE)
      ensures STACK_PAGE in v
    {
      assert Present(v, file, hs[i]);
    }
  }

  /** load up to its call of set_arguments_into_stack. */
  method LoadImage(m: AddressSpace, file: seq<Byte>, full: set<int>) returns (esp: Option<int>)
    requires m.Valid() && m.View() == map[] && |file| < 0x8000_0000
    modifies m
    ensures m.Valid() && m.frames.Keys == old(m.frames.Keys)
    ensures esp.Some? <==> LoadableFile(file, |old(m.free)|, full)
    ensures esp.Some? ==>
              && esp.value == PHYS_BASE
              && STACK_PAGE in m.View() && m.View()[STACK_PAGE] == PageView(Zeros(PGSIZE), true)
              && Faithful(m.View() - {STACK_PAGE}, file, AllHeaders(file).value)
  {
    hide Faithful, Fit, PageTotal, Headers, HeadersAt, Touches, m.View, m.Disjoint, Mapped, GoodEhdr, Zeros, EhdrAt;
    var b := FileRead(file, 0, EHDR_SIZE);
    if |b| != EHDR_SIZE || !GoodEhdr(EhdrAt(b)) {
      return None;
    }
    var ok := LoadHeaders(m, file, EhdrAt(b), full);
    if !ok {
      return None;
    }
    StackIsFree(m.View(), file, AllHeaders(file).value);
    ghost var v0 := m.View();
    esp := m.SetupStack(STACK_PAGE in full);
    assert esp.Some? ==> m.View() - {STACK_PAGE} == v0;
  }

  /** load, for the file filesys_open returned (None if it failed) and the command line.
      It succeeds exactly for a loadable file whose arguments fit the stack page, and then
      the program is there as its headers say. On every path each page of the pool is
      free or mapped. */
  method Load(m: AddressSpace, pagedirCreated: bool, program: Option<seq<Byte>>, cmd: seq<Byte>, full: set<int>)
    returns (result: LoadResult)
    requires m.Valid() && m.View() == map[] && NulFree(cmd)
    requires program.Some? ==> |program.value| < 0x8000_0000
    modifies m
    ensures m.Valid() && m.frames.Keys == old(m.frames.Keys)
    ensures !result.Failed? <==> pagedirCreated && program.Some? && LoadableFile(program.value, |old(m.free)|, full)
    ensures !result.Failed? ==> (result.Loaded? <==> Footprint(Tokens(cmd)) <= PGSIZE)
    ensures result.Loaded? ==> LoadedWell(m.View(), program.value, cmd, result.eip, result.esp)
    ensures result.Loaded? ==> result.esp == PHYS_BASE - Footprint(Tokens(cmd))
  {
    hide Faithful, LoadableFile, AllHeaders, m.View, m.Disjoint, Mapped, Decode, Down, AsSeen, Tokens, Zeros, Fit;
    if !pagedirCreated || program.None? {
      return Failed;
    }
    var file := program.value;
    var esp := LoadImage(m, file, full);
    if esp.None? {
      return Failed;
    }
    ghost var v := m.View();
    TokensAreStrings(cmd);
    ZeroedPage();
    assert StackIs(m, v, []);
    var ok, sp := SetArgumentsIntoStack(m, Tokens(cmd), esp.value, v);
    if !ok {
      return StackOverflow;
    }
    StackOnTop(v, Tokens(cmd));
    HasEntry(file, |old(m.free)|, full);
    result := Loaded(GoodHeader(file).value.entry, sp);
  }

  lemma HasEntry(file: seq<Byte>, frames: nat, full: set<int>)
    requires LoadableFile(file, frames, full)
    ensures AllHeaders(file).Some? && GoodHeader(file).Some?
  {}

  lemma ZeroedPage()
    ensures Down([]) == Zeros(PGSIZE)
  {}

  lemma StackOnTop(v: UserImage, tokens: seq<seq<Byte>>)
    requires STACK_PAGE in v && v[STACK_PAGE].writable
    requires AllNulFree(tokens) && Footprint(tokens) <= PGSIZE
    ensures var u := WithStack(v, Image(tokens));
            && u - {STACK_PAGE} == v - {STACK_PAGE} && u[STACK_PAGE].writable
            && Esp(tokens) % 4 == 0 && Decode(u[STACK_PAGE].data, Esp(tokens)) == Some(AsSeen(tokens))
  {
    hide Decode, Image, Down, AsSeen, Strings, AllNulFree, Top, Esp, Footprint;
    DownTop(Image(tokens));
    ArgumentsRoundTrip(Down(Image(tokens)), tokens);
  }

  /** In a loaded program no two segments overlap and none reaches the stack page. */
  lemma SegmentsApart(v: UserImage, file: seq<Byte>, cmd: seq<Byte>, eip: Word, esp: int, i: nat, j: nat)
    requires LoadedWell(v, file, cmd, eip, esp)
    requires var hs := AllHeaders(file).value; i < j < |hs| && hs[i].pType == hs[j].pType == PT_LOAD
    ensures var hs := AllHeaders(file).value;
            && (hs[i].vaddr + hs[i].memsz <= hs[j].vaddr || hs[j].vaddr + hs[j].memsz <= hs[i].vaddr)
            && hs[i].vaddr + hs[i].memsz <= STACK_PAGE && hs[j].vaddr + hs[j].memsz <= STACK_PAGE
  {
    var hs := AllHeaders(file).value;
    hide AllHeaders;
    assert Present(v - {STACK_PAGE}, file, hs[i]) && Present(v - {STACK_PAGE}, file, hs[j]);
    PairApart(hs[i], hs[j], |file|);
    BelowStack(hs[i], |file|);
    BelowStack(hs[j], |file|);
  }

  lemma PairApart(g: Phdr, h: Phdr, fileLength: nat)
    requires g.pType == h.pType == PT_LOAD && Loadable(g, fileLength) && Loadable(h, fileLength)
    requires forall u :: Touches(g, u) ==> !Touches(h, u)
    ensures g.vaddr + g.memsz <= h.vaddr || h.vaddr + h.memsz <= g.vaddr
  {
    var a := if g.vaddr < h.vaddr then h.vaddr else g.vaddr;
    PageStart(a);
    assert Touches(g, a - a % PGSIZE) ==> !Touches(h, a - a % PGSIZE);
  }

  lemma BelowStack(h: Phdr, fileLength: nat)
    requires h.pType == PT_LOAD && Loadable(h, fileLength) && !Touches(h, STACK_PAGE)
    ensures h.vaddr + h.memsz <= STACK_PAGE
  {}
}

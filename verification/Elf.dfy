/** ELF program headers as load and validate_segment of Assignment 6_2's process.c treat
    them, in 32-bit arithmetic. */
module Elf {
  import opened Bytes
  import opened Arguments

  const EHDR_SIZE := 52
  const PHDR_SIZE := 32
  const PT_LOAD: Word := 1
  const PT_DYNAMIC: Word := 2
  const PT_INTERP: Word := 3
  const PT_SHLIB: Word := 5
  const ELF_MAGIC: seq<Byte> := [0x7f, 0x45, 0x4c, 0x46, 1, 1, 1]

  /** The fields of an executable header that load looks at. */
  datatype Ehdr = Ehdr(ident: seq<Byte>, eType: nat, machine: nat, version: Word,
                       entry: Word, phoff: Word, phentsize: nat, phnum: nat)

  datatype Phdr = Phdr(pType: Word, offset: Word, vaddr: Word, filesz: Word, memsz: Word, flags: Word)

  function EhdrAt(b: seq<Byte>): Ehdr
    requires |b| == EHDR_SIZE
  {
    Ehdr(b[..7], HalfAt(b, 16), HalfAt(b, 18), WordAt(b, 20),
         WordAt(b, 24), WordAt(b, 28), HalfAt(b, 42), HalfAt(b, 44))
  }

  function PhdrOf(b: seq<Byte>): Phdr
    requires |b| == PHDR_SIZE
  {
    Phdr(WordAt(b, 0), WordAt(b, 4), WordAt(b, 8), WordAt(b, 16), WordAt(b, 20), WordAt(b, 24))
  }

  /** The checks load makes on the executable header. */
  predicate GoodEhdr(e: Ehdr) {
    && e.ident == ELF_MAGIC && e.eType == 2 && e.machine == 3 && e.version == 1
    && e.phentsize == PHDR_SIZE && e.phnum <= 1024
  }

  // ---------- The layout of the headers ----------

  /** struct Elf32_Ehdr with all its members. */
  datatype RawEhdr = RawEhdr(ident: seq<Byte>, eType: Half, machine: Half, version: Word, entry: Word,
                             phoff: Word, shoff: Word, flags: Word, ehsize: Half, phentsize: Half,
                             phnum: Half, shentsize: Half, shnum: Half, shstrndx: Half)

  /** The header as it stands in a file. */
  function RawBytes(r: RawEhdr): (b: seq<Byte>)
    requires |r.ident| == 16
    ensures |b| == EHDR_SIZE
  {
    r.ident + HalfBytes(r.eType) + HalfBytes(r.machine)
    + Words([r.version, r.entry, r.phoff, r.shoff, r.flags])
    + HalfBytes(r.ehsize) + HalfBytes(r.phentsize) + HalfBytes(r.phnum)
    + HalfBytes(r.shentsize) + HalfBytes(r.shnum) + HalfBytes(r.shstrndx)
  }

  /** load reads each member of the executable header from its place in the file. */
  lemma EhdrLayout(r: RawEhdr)
    requires |r.ident| == 16
    ensures EhdrAt(RawBytes(r))
         == Ehdr(r.ident[..7], r.eType, r.machine, r.version, r.entry, r.phoff, r.phentsize, r.phnum)
  {
    var b, ws := RawBytes(r), [r.version, r.entry, r.phoff, r.shoff, r.flags];
    assert |Words(ws)| == 20;
    hide Words, WordBytes, HalfBytes, WordAt, HalfAt;
    assert b[..7] == r.ident[..7];
    assert b[16..18] == HalfBytes(r.eType) && b[18..20] == HalfBytes(r.machine);
    assert b[20..40] == Words(ws);
    assert b[42..44] == HalfBytes(r.phentsize) && b[44..46] == HalfBytes(r.phnum);
    HalfRoundTrip(b, 16, r.eType);
    HalfRoundTrip(b, 18, r.machine);
    WordInWords(b, 20, ws, 0);
    WordInWords(b, 20, ws, 1);
    WordInWords(b, 20, ws, 2);
    HalfRoundTrip(b, 42, r.phentsize);
    HalfRoundTrip(b, 44, r.phnum);
  }

  /** load goes on exactly for a 32-bit little-endian i386 executable whose program headers
      have the expected size and are at most 1024. */
  lemma GoodEhdrIs(r: RawEhdr)
    requires |r.ident| == 16
    ensures GoodEhdr(EhdrAt(RawBytes(r))) <==>
              && r.ident[..7] == [0x7f, 0x45, 0x4c, 0x46, 1, 1, 1]
              && r.eType == 2 && r.machine == 3 && r.version == 1 && r.phentsize == 32 && r.phnum <= 1024
  {
    hide EhdrAt, RawBytes;
    EhdrLayout(r);
  }

  /** struct Elf32_Phdr with all its members. */
  datatype RawPhdr = RawPhdr(pType: Word, offset: Word, vaddr: Word, paddr: Word,
                             filesz: Word, memsz: Word, flags: Word, align: Word)

  function RawWords(r: RawPhdr): seq<Word> {
    [r.pType, r.offset, r.vaddr, r.paddr, r.filesz, r.memsz, r.flags, r.align]
  }

  /** load reads each member of a program header from its place in the file. */
  lemma PhdrLayout(r: RawPhdr)
    ensures PhdrOf(Words(RawWords(r))) == Phdr(r.pType, r.offset, r.vaddr, r.filesz, r.memsz, r.flags)
  {
    hide Words, WordBytes, WordAt;
    var ws := RawWords(r);
    var b := Words(ws);
    assert b[0..32] == b;
    WordInWords(b, 0, ws, 0);
    WordInWords(b, 0, ws, 1);
    WordInWords(b, 0, ws, 2);
    WordInWords(b, 0, ws, 4);
    WordInWords(b, 0, ws, 5);
    WordInWords(b, 0, ws, 6);
  }

  /** Unsigned 32-bit wrap-around. */
  function U32(x: int): Word {
    x % TWO_32
  }

  /** Conversion of an unsigned word to a signed 32-bit off_t. */
  function OffT(w: Word): int {
    if w < 0x8000_0000 then w else w - TWO_32
  }

  predicate IsUserVaddr(a: Word) {
    a < PHYS_BASE
  }

  function ValidateSegment(h: Phdr, fileLength: nat): bool {
    if h.offset % PGSIZE != h.vaddr % PGSIZE then false
    else if h.offset > fileLength then false
    else if h.memsz < h.filesz then false
    else if h.memsz == 0 then false
    else if !IsUserVaddr(h.vaddr) then false
    else if !IsUserVaddr(U32(h.vaddr + h.memsz)) then false
    else if U32(h.vaddr + h.memsz) < h.vaddr then false
    else if h.vaddr < PGSIZE then false
    else true
  }

  /** The header in unbounded arithmetic: a non-empty region of user space above page 0
      whose start is congruent to its file offset. */
  ghost predicate Loadable(h: Phdr, fileLength: nat) {
    && h.offset % PGSIZE == h.vaddr % PGSIZE
    && h.offset <= fileLength
    && h.filesz <= h.memsz && 0 < h.memsz
    && PGSIZE <= h.vaddr && h.vaddr + h.memsz < PHYS_BASE
  }

  /** The wrapped comparisons of validate_segment accept exactly the loadable headers. */
  lemma ValidateSegmentExact(h: Phdr, fileLength: nat)
    ensures ValidateSegment(h, fileLength) <==> Loadable(h, fileLength)
  {
    var end := h.vaddr + h.memsz;
    if end < TWO_32 {
      assert U32(end) == end;
    } else {
      assert U32(end) == end - TWO_32;
    }
  }

  function RoundUp(x: Word): Word {
    U32(U32(x + PGSIZE - 1) / PGSIZE * PGSIZE)
  }

  /** How load calls load_segment. */
  datatype SegmentArgs = SegmentArgs(filePage: int, memPage: int, readBytes: Word, zeroBytes: Word, writable: bool)

  function ArgsFor(h: Phdr): SegmentArgs {
    var writable := h.flags / 2 % 2 == 1;
    var filePage := h.offset - h.offset % PGSIZE;
    var memPage := h.vaddr - h.vaddr % PGSIZE;
    var pageOffset := h.vaddr % PGSIZE;
    if h.filesz > 0 then
      var readBytes := U32(pageOffset + h.filesz);
      SegmentArgs(OffT(filePage), memPage, readBytes,
                  U32(RoundUp(U32(pageOffset + h.memsz)) - readBytes), writable)
    else
      SegmentArgs(OffT(filePage), memPage, 0, RoundUp(U32(pageOffset + h.memsz)), writable)
  }

  lemma RoundUpExact(x: int)
    requires 0 < x < PHYS_BASE
    ensures var r := RoundUp(x); r % PGSIZE == 0 && x <= r < x + PGSIZE && r <= PHYS_BASE
  {
    var q := (x + PGSIZE - 1) / PGSIZE;
    assert x <= q * PGSIZE < x + PGSIZE;
  }

  /** For a header validate_segment accepts, no sum in load wraps, the three assertions of
      load_segment hold, and the pages to map lie in [PGSIZE, PHYS_BASE). */
  lemma AcceptedIsSafe(h: Phdr, fileLength: nat)
    requires ValidateSegment(h, fileLength) && fileLength < 0x8000_0000
    ensures var a, pageOffset := ArgsFor(h), h.vaddr % PGSIZE;
            && a.readBytes == (if h.filesz > 0 then pageOffset + h.filesz else 0)
            && pageOffset + h.memsz <= a.readBytes + a.zeroBytes < pageOffset + h.memsz + PGSIZE
            && (a.readBytes + a.zeroBytes) % PGSIZE == 0
            && a.memPage % PGSIZE == 0 && a.filePage % PGSIZE == 0
            && 0 <= a.filePage == h.offset - pageOffset
            && PGSIZE <= a.memPage == h.vaddr - pageOffset
            && a.memPage + a.readBytes + a.zeroBytes <= PHYS_BASE
  {
    ValidateSegmentExact(h, fileLength);
    var pageOffset := h.vaddr % PGSIZE;
    var len := pageOffset + h.memsz;
    U32Id(len);
    RoundUpExact(len);
    U32Id(pageOffset + h.filesz);
    U32Id(RoundUp(len) - (pageOffset + h.filesz));
    hide U32, RoundUp;
    PageStart(h.vaddr);
    PageStart(h.offset);
    PagesEnd(h.vaddr - pageOffset, len, RoundUp(len));
  }

  lemma U32Id(x: int)
    ensures 0 <= x < TWO_32 ==> U32(x) == x
  {}

  lemma PageStart(a: int)
    ensures (a - a % PGSIZE) % PGSIZE == 0
  {}

  lemma PagesEnd(page: int, len: int, rounded: int)
    requires page % PGSIZE == 0 && rounded % PGSIZE == 0
    requires page + len < PHYS_BASE && rounded < len + PGSIZE
    ensures page + rounded <= PHYS_BASE
  {}
}

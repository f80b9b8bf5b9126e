/** A user process's address space over the kernel's pool of user pages: palloc_get_page,
    palloc_free_page, pagedir_get_page and pagedir_set_page as contracts, and install_page,
    setup_stack of Assignment 6_2's process.c on top of them. */
module UserMemory {
  import opened Bytes
  import opened Arguments
  import opened Wrappers

  type Frame = nat  // a page of the user pool, by its number

  datatype Mapping = Mapping(frame: Frame, writable: bool)

  /** What a user page shows: its bytes and whether the process may write them. */
  datatype PageView = PageView(data: Page, writable: bool)

  type UserImage = map<int, PageView>

  ghost predicate Mapped(table: map<int, Mapping>, f: Frame) {
    exists u :: u in table && table[u].frame == f
  }

  class AddressSpace {
    var frames: map<Frame, Page>   // the whole pool, with whatever each page holds
    var free: set<Frame>
    var table: map<int, Mapping>   // page directory: user page -> frame

    /** No frame backs two user pages, and mapped frames are not free. */
    ghost predicate Disjoint()
      reads this
    {
      && free <= frames.Keys
      && (forall u :: u in table ==>
            u % PGSIZE == 0 && 0 <= u < PHYS_BASE && table[u].frame in frames.Keys - free)
      && (forall u, v :: u in table && v in table && table[u].frame == table[v].frame ==> u == v)
    }

    /** Disjoint, and every frame is free, mapped, or one of those held. */
    ghost predicate Holding(held: set<Frame>)
      reads this
    {
      && Disjoint()
      && (forall f :: f in held ==> f in frames && f !in free && !Mapped(table, f))
      && (forall f :: f in frames ==> f in free || Mapped(table, f) || f in held)
    }

    /** No page leaked: each page of the pool is either free or mapped. */
    ghost predicate Valid()
      reads this
    {
      Holding({})
    }

    ghost function View(): UserImage
      reads this
      requires Disjoint()
    {
      map u | u in table :: PageView(frames[table[u].frame], table[u].writable)
    }

    constructor (frames: map<Frame, Page>)
      ensures Valid() && View() == map[] && this.frames == frames
    {
      this.frames := frames;
      free := frames.Keys;
      table := map[];
    }

    /** palloc_get_page (PAL_USER): some free page, holding stale data. */
    method PallocGetPage() returns (kpage: Option<Frame>)
      requires Valid()
      modifies this
      ensures frames == old(frames) && table == old(table)
      ensures kpage.None? <==> old(free) == {}
      ensures kpage.None? ==> Valid() && free == old(free)
      ensures kpage.Some? ==> Holding({kpage.value}) && |free| == |old(free)| - 1
    {
      if free == {} {
        kpage := None;
      } else {
        var f :| f in free;
        free := free - {f};
        kpage := Some(f);
      }
    }

    method PallocFreePage(kpage: Frame)
      requires Holding({kpage})
      modifies this
      ensures Valid() && View() == old(View()) && frames.Keys == old(frames.Keys) && |free| == |old(free)| + 1
    {
      free := free + {kpage};
    }

    /** A kernel store to a page that is held and not mapped yet. */
    method FillPage(kpage: Frame, data: Page)
      requires Holding({kpage})
      modifies this
      ensures Holding({kpage}) && View() == old(View()) && frames == old(frames)[kpage := data] && free == old(free)
    {
      assert forall u :: u in table ==> Mapped(table, table[u].frame) && table[u].frame != kpage;
      frames := frames[kpage := data];
    }

    /** install_page: false, with no effect, if upage is already mapped or the page table
        cannot grow (pageTableFull stands for pagedir_set_page failing). */
    method InstallPage(upage: int, kpage: Frame, writable: bool, pageTableFull: bool) returns (ok: bool)
      requires Holding({kpage}) && upage % PGSIZE == 0 && 0 <= upage < PHYS_BASE
      modifies this
      ensures ok <==> upage !in old(View()) && !pageTableFull
      ensures frames == old(frames) && free == old(free)
      ensures !ok ==> Holding({kpage}) && View() == old(View())
      ensures ok ==> Valid() && View() == old(View())[upage := PageView(old(frames)[kpage], writable)]
    {
      ok := upage !in table && !pageTableFull;
      if ok {
        table := table[upage := Mapping(kpage, writable)];
        assert table[upage].frame == kpage;
        assert forall u :: u in old(table) ==> u in table && table[u] == old(table)[u];
        assert forall f :: Mapped(old(table), f) ==> Mapped(table, f);
      }
    }

    /** setup_stack: a zeroed, writable page right below PHYS_BASE. */
    method SetupStack(pageTableFull: bool) returns (esp: Option<int>)
      requires Valid()
      modifies this
      ensures Valid() && frames.Keys == old(frames.Keys)
      ensures esp.Some? <==> |old(free)| > 0 && STACK_PAGE !in old(View()) && !pageTableFull
      ensures esp.Some? ==>
                && esp.value == PHYS_BASE && STACK_PAGE !in old(View())
                && View() == old(View())[STACK_PAGE := PageView(Zeros(PGSIZE), true)]
      ensures esp.None? ==> View() == old(View())
    {
      esp := None;
      var kpage := PallocGetPage();
      if kpage.Some? {
        FillPage(kpage.value, Zeros(PGSIZE));
        var success := InstallPage(STACK_PAGE, kpage.value, true, pageTableFull);
        if success {
          esp := Some(PHYS_BASE);
        } else {
          PallocFreePage(kpage.value);
        }
      }
    }

    /** A kernel store through user addresses into the stack page. The model stops
        (ok is false) at a store below that page: it then hits whatever is mapped there. */
    method Store(a: int, b: seq<Byte>) returns (ok: bool)
      requires Valid() && STACK_PAGE in View() && a + |b| <= PHYS_BASE
      modifies this
      ensures Valid() && frames.Keys == old(frames.Keys)
      ensures ok <==> STACK_PAGE <= a
      ensures !ok ==> View() == old(View())
      ensures ok ==> View() == old(View())[STACK_PAGE :=
                old(View())[STACK_PAGE].(data := Overwrite(old(View())[STACK_PAGE].data, a - STACK_PAGE, b))]
    {
      ok := STACK_PAGE <= a;
      hide Overwrite, Mapped;
      if ok {
        var f := table[STACK_PAGE].frame;
        assert forall u :: u in table && table[u].frame == f ==> u == STACK_PAGE;
        frames := frames[f := Overwrite(frames[f], a - STACK_PAGE, b)];
      }
    }

    /** strlen of the string at address a of the stack page. */
    function StackStrlen(a: int): (n: nat)
      reads this
      requires Disjoint() && STACK_PAGE in View() && STACK_PAGE <= a <= PHYS_BASE
      ensures n == Strlen(View()[STACK_PAGE].data, a - STACK_PAGE)
    {
      Strlen(frames[table[STACK_PAGE].frame], a - STACK_PAGE)
    }
  }
}

/** set_arguments_into_stack and its helpers: the stack pointer moves down through the
    stack page while strings, padding, pointers, argc and a return address are stored. */
module PushArguments {
  import opened Bytes
  import opened Arguments
  import opened UserMemory

  ghost function WithStack(v: UserImage, x: seq<Byte>): UserImage
    requires STACK_PAGE in v && |x| <= PGSIZE
  {
    v[STACK_PAGE := v[STACK_PAGE].(data := Down(x))]
  }

  /** The process sees v, but its stack page is zero except for x at its upper end. */
  ghost predicate StackIs(m: AddressSpace, v: UserImage, x: seq<Byte>)
    reads m
  {
    m.Valid() && STACK_PAGE in v && |x| <= PGSIZE && m.View() == WithStack(v, x)
  }

  lemma StackHolds(m: AddressSpace, v: UserImage, x: seq<Byte>)
    requires StackIs(m, v, x)
    ensures m.Valid() && |x| <= PGSIZE
  {}

  /** Moves the stack pointer down by |b| and stores b there. */
  method Push(m: AddressSpace, sp: int, b: seq<Byte>, ghost v: UserImage, ghost x: seq<Byte>)
    returns (ok: bool, next: int)
    requires StackIs(m, v, x) && sp == PHYS_BASE - |x|
    modifies m
    ensures m.Valid() && m.frames.Keys == old(m.frames.Keys)
    ensures next == sp - |b| && (ok <==> |b| + |x| <= PGSIZE)
    ensures StackIs(m, v, if ok then b + x else x)
  {
    next := sp - |b|;
    if |b| + |x| <= PGSIZE {
      PushDown(x, b);
    }
    hide m.Disjoint, m.View, Mapped, Down, Overwrite;
    ok := m.Store(next, b);
  }

  method SplitAndInsert(m: AddressSpace, token: seq<Byte>, totalLength: int, sp: int, numArgs: int,
                        ghost v: UserImage, ghost x: seq<Byte>)
    returns (ok: bool, totalLength': int, sp': int, numArgs': int)
    requires StackIs(m, v, x) && sp == PHYS_BASE - |x|
    modifies m
    ensures m.Valid() && m.frames.Keys == old(m.frames.Keys)
    ensures totalLength' == totalLength + |token| + 1 && numArgs' == numArgs + 1
    ensures sp' == sp - |token| - 1 && (ok <==> |token| + 1 + |x| <= PGSIZE)
    ensures StackIs(m, v, if ok then token + [0] + x else x)
  {
    hide StackIs, m.Holding;
    var tokenLength := |token| + 1;
    totalLength' := totalLength + tokenLength;
    ok, sp' := Push(m, sp, token + [0], v, x);
    numArgs' := numArgs + 1;
  }

  method AddWordAlign(m: AddressSpace, totalLength: nat, sp: int, ghost v: UserImage, ghost x: seq<Byte>)
    returns (ok: bool, totalLength': int, sp': int)
    requires StackIs(m, v, x) && sp == PHYS_BASE - |x| && totalLength == |x|
    modifies m
    ensures m.Valid() && m.frames.Keys == old(m.frames.Keys)
    ensures totalLength' == |x| + Pad(|x|) && sp' == PHYS_BASE - totalLength'
    ensures ok <==> totalLength' <= PGSIZE
    ensures StackIs(m, v, if ok then Zeros(Pad(|x|)) + x else x)
  {
    assert |x| <= PGSIZE;
    var wordAlign;
    wordAlign, totalLength' := CountPadding(totalLength);
    hide StackIs, Pad, m.Holding;
    ok, sp' := true, sp;
    if wordAlign != 0 {
      ok, sp' := Push(m, sp, Zeros(wordAlign), v, x);
    } else {
      assert Zeros(0) + x == x;
    }
  }

  /** The loop of add_word_align. */
  method CountPadding(totalLength: nat) returns (wordAlign: nat, totalLength': nat)
    ensures wordAlign == Pad(totalLength) && totalLength' == totalLength + wordAlign
  {
    wordAlign, totalLength' := 0, totalLength;
    while totalLength' % 4 != 0
      invariant wordAlign <= Pad(totalLength) && totalLength' == totalLength + wordAlign
      decreases Pad(totalLength) - wordAlign
    {
      wordAlign := wordAlign + 1;
      totalLength' := totalLength' + 1;
    }
  }

  /** Makes room for the null sentinel but stores only its lowest byte; the other three
      are zero because the page was. */
  method AddNullChar(m: AddressSpace, sp: int, ghost v: UserImage, ghost x: seq<Byte>) returns (ok: bool, sp': int)
    requires StackIs(m, v, x) && sp == PHYS_BASE - |x|
    modifies m
    ensures m.Valid() && m.frames.Keys == old(m.frames.Keys)
    ensures sp' == sp - 4 && (ok <==> 4 + |x| <= PGSIZE)
    ensures StackIs(m, v, if ok then Zeros(4) + x else x)
  {
    sp' := sp - 4;
    if 4 + |x| <= PGSIZE {
      ZerosDown(x, 4);
      ZeroOverZero(x);
    }
    hide m.Disjoint, m.View, Mapped, Down, Overwrite;
    ok := m.Store(sp', [0]);
  }

  lemma ZeroOverZero(x: seq<Byte>)
    requires 4 + |x| <= PGSIZE
    ensures Overwrite(Down(x), PGSIZE - |x| - 4, [0]) == Down(x)
  {}

  /** Pushes the pointers, last token first: each string's address is found by stepping
      over the string below it in memory. */
  method AddArgumentAddress(m: AddressSpace, numArgs: nat, sp: int, argsPointer: int,
                            ghost v: UserImage, ghost tokens: seq<seq<Byte>>)
    returns (ok: bool, sp': int, argsPointer': int)
    requires StackIs(m, v, Bottom(tokens)) && sp == PHYS_BASE - |Bottom(tokens)|
    requires AllNulFree(tokens) && numArgs == |tokens| && argsPointer == PHYS_BASE - |Strings(tokens)|
    modifies m
    ensures m.Valid() && m.frames.Keys == old(m.frames.Keys)
    ensures |Strings(tokens)| <= PGSIZE && (ok <==> |Vector(tokens)| <= PGSIZE)
    ensures ok ==> sp' == PHYS_BASE - |Vector(tokens)| && argsPointer' == PHYS_BASE
    ensures ok ==> StackIs(m, v, Vector(tokens))
  {
    hide VectorFrom, Vector, Strings, Footprint, Bottom, StackIs, AllNulFree, Pad, m.Holding;
    StackHolds(m, v, Bottom(tokens));
    NoPointersYet(tokens);
    ok, sp', argsPointer' := true, sp, argsPointer;
    var numPushed := 0;
    while numPushed < numArgs
      invariant 0 <= numPushed <= numArgs && ok && m.Valid() && m.frames.Keys == old(m.frames.Keys)
      invariant |VectorFrom(tokens, numArgs - numPushed)| <= PGSIZE
      invariant StackIs(m, v, VectorFrom(tokens, numArgs - numPushed))
      invariant sp' == PHYS_BASE - |VectorFrom(tokens, numArgs - numPushed)|
      invariant argsPointer' == PHYS_BASE - |Strings(tokens[..numArgs - numPushed])|
    {
      ok, sp', argsPointer' := PushAddress(m, sp', argsPointer', v, tokens, numArgs - numPushed - 1);
      if !ok {
        return;
      }
      numPushed := numPushed + 1;
    }
  }

  lemma NoPointersYet(tokens: seq<seq<Byte>>)
    requires |Bottom(tokens)| <= PGSIZE
    ensures |Strings(tokens)| <= PGSIZE && VectorFrom(tokens, |tokens|) == Bottom(tokens)
    ensures Vector(tokens) == VectorFrom(tokens, 0)
    ensures tokens[..|tokens|] == tokens && Strings(tokens[..0]) == []
  {}

  /** One round of the loop of add_argument_address: pushes token i's address. */
  method PushAddress(m: AddressSpace, sp: int, argsPointer: int, ghost v: UserImage, ghost tokens: seq<seq<Byte>>,
                     ghost i: nat)
    returns (ok: bool, sp': int, argsPointer': int)
    requires AllNulFree(tokens) && i < |tokens| && |Strings(tokens)| <= PGSIZE
    requires StackIs(m, v, VectorFrom(tokens, i + 1))
    requires sp == PHYS_BASE - |VectorFrom(tokens, i + 1)| && argsPointer == PHYS_BASE - |Strings(tokens[..i + 1])|
    modifies m
    ensures m.Valid() && m.frames.Keys == old(m.frames.Keys)
    ensures ok <==> |VectorFrom(tokens, i)| <= PGSIZE
    ensures ok ==> sp' == PHYS_BASE - |VectorFrom(tokens, i)| && argsPointer' == PHYS_BASE - |Strings(tokens[..i])|
    ensures ok ==> StackIs(m, v, VectorFrom(tokens, i))
  {
    hide VectorFrom, Strings, Footprint, Addrs, Words, WordBytes, AllNulFree, StackIs, Strlen, Down, m.Holding;
    StringsSuffix(tokens, i + 1);
    PointerOnTop(tokens, i);
    ok, sp' := Push(m, sp, WordBytes(argsPointer), v, VectorFrom(tokens, i + 1));
    argsPointer' := argsPointer;
    if ok {
      SteppedOver(tokens, i);
      var n := StrlenAt(m, argsPointer, v, VectorFrom(tokens, i));
      argsPointer' := argsPointer + n + 1;
    }
  }

  /** strlen of a string on the stack page. */
  method StrlenAt(m: AddressSpace, a: int, ghost v: UserImage, ghost x: seq<Byte>) returns (n: nat)
    requires StackIs(m, v, x) && STACK_PAGE <= a <= PHYS_BASE
    ensures |x| <= PGSIZE && n == Strlen(Down(x), a - STACK_PAGE)
  {
    n := m.StackStrlen(a);
  }

  lemma PointerOnTop(tokens: seq<seq<Byte>>, i: nat)
    requires i < |tokens| && |Strings(tokens)| <= PGSIZE && |Strings(tokens[..i + 1])| <= |Strings(tokens)|
    ensures WordBytes(PHYS_BASE - |Strings(tokens[..i + 1])|) + VectorFrom(tokens, i + 1) == VectorFrom(tokens, i)
  {
    hide Strings, WordBytes, Bottom, Footprint;
    Join(WordBytes(Addr(tokens, i)), Words(Addrs(tokens, i + 1)), Bottom(tokens));
  }

  lemma Join(a: seq<Byte>, b: seq<Byte>, c: seq<Byte>)
    ensures a + (b + c) == (a + b) + c
  {}

  /** The string at the stepping pointer is token i, so strlen leads to the next one. */
  lemma SteppedOver(tokens: seq<seq<Byte>>, i: nat)
    requires AllNulFree(tokens) && i < |tokens|
    requires |Strings(tokens)| <= PGSIZE && |VectorFrom(tokens, i)| <= PGSIZE
    ensures STACK_PAGE <= Addr(tokens, i) < PHYS_BASE
    ensures Addr(tokens, i) + Strlen(Down(VectorFrom(tokens, i)), Addr(tokens, i) - STACK_PAGE) + 1
         == PHYS_BASE - |Strings(tokens[..i])|
  {
    var d := Down(VectorFrom(tokens, i));
    DownTop(VectorFrom(tokens, i));
    hide Strings, AllNulFree, Down, Strlen, Bottom, Words, Addrs, Top, CString;
    Peel(d, Words(Addrs(tokens, i)), Bottom(tokens));
    BottomParts(d, tokens);
    StringAt(d, tokens, i);
  }

  method AddCharPointers(m: AddressSpace, sp: int, ghost v: UserImage, ghost x: seq<Byte>) returns (ok: bool, sp': int)
    requires StackIs(m, v, x) && sp == PHYS_BASE - |x| && |x| <= PGSIZE
    modifies m
    ensures m.Valid() && m.frames.Keys == old(m.frames.Keys)
    ensures sp' == sp - 4 && (ok <==> 4 + |x| <= PGSIZE)
    ensures StackIs(m, v, if ok then WordBytes(sp) + x else x)
  {
    hide StackIs, m.Holding;
    var charPointer := sp;
    ok, sp' := Push(m, sp, WordBytes(charPointer), v, x);
  }

  method AddNumberOfArguments(m: AddressSpace, sp: int, numArgs: Word, ghost v: UserImage, ghost x: seq<Byte>)
    returns (ok: bool, sp': int)
    requires StackIs(m, v, x) && sp == PHYS_BASE - |x|
    modifies m
    ensures m.Valid() && m.frames.Keys == old(m.frames.Keys)
    ensures sp' == sp - 4 && (ok <==> 4 + |x| <= PGSIZE)
    ensures StackIs(m, v, if ok then WordBytes(numArgs) + x else x)
  {
    hide StackIs, m.Holding;
    ok, sp' := Push(m, sp, WordBytes(numArgs), v, x);
  }

  method AddReturnAddress(m: AddressSpace, sp: int, ghost v: UserImage, ghost x: seq<Byte>) returns (ok: bool, sp': int)
    requires StackIs(m, v, x) && sp == PHYS_BASE - |x|
    modifies m
    ensures m.Valid() && m.frames.Keys == old(m.frames.Keys)
    ensures sp' == sp - 4 && (ok <==> 4 + |x| <= PGSIZE)
    ensures StackIs(m, v, if ok then WordBytes(0) + x else x)
  {
    hide StackIs, m.Holding;
    ok, sp' := Push(m, sp, WordBytes(0), v, x);
  }

  /** The loop over strtok_r: pushes every token's string. */
  method PushStrings(m: AddressSpace, tokens: seq<seq<Byte>>, esp: int, ghost v: UserImage)
    returns (ok: bool, totalLength: int, sp: int, numArgs: int)
    requires StackIs(m, v, []) && esp == PHYS_BASE
    modifies m
    ensures m.Valid() && m.frames.Keys == old(m.frames.Keys)
    ensures ok <==> |Strings(tokens)| <= PGSIZE
    ensures ok ==> StackIs(m, v, Strings(tokens))
    ensures ok ==> totalLength == |Strings(tokens)| && numArgs == |tokens| && sp == PHYS_BASE - totalLength
  {
    ok, totalLength, sp, numArgs := true, 0, esp, 0;
    assert tokens[..0] == [] && tokens[..|tokens|] == tokens && Strings([]) == [];
    hide Strings, StackIs, m.Holding;
    while numArgs < |tokens|
      invariant 0 <= numArgs <= |tokens| && ok && m.Valid() && m.frames.Keys == old(m.frames.Keys)
      invariant totalLength == |Strings(tokens[..numArgs])| <= PGSIZE && sp == PHYS_BASE - totalLength
      invariant StackIs(m, v, Strings(tokens[..numArgs]))
      decreases |tokens| - numArgs
    {
      OneMoreString(tokens, numArgs);
      ok, totalLength, sp, numArgs :=
        SplitAndInsert(m, tokens[numArgs], totalLength, sp, numArgs, v, Strings(tokens[..numArgs]));
      if !ok {
        return;
      }
    }
  }

  lemma OneMoreString(tokens: seq<seq<Byte>>, i: nat)
    requires i < |tokens|
    ensures Strings(tokens[..i + 1]) == tokens[i] + [0] + Strings(tokens[..i])
    ensures |Strings(tokens[..i + 1])| <= |Strings(tokens)|
  {
    OneString(tokens, i);
    StringsSuffix(tokens, i + 1);
    hide Strings;
  }

  /** Fills a fresh stack page with the arguments. It succeeds exactly when they fit the
      page, and then the page ends in Image(tokens) and esp points to its first byte. */
  method SetArgumentsIntoStack(m: AddressSpace, tokens: seq<seq<Byte>>, esp: int, ghost v: UserImage)
    returns (ok: bool, esp': int)
    requires StackIs(m, v, []) && esp == PHYS_BASE && AllNulFree(tokens)
    modifies m
    ensures m.Valid() && m.frames.Keys == old(m.frames.Keys)
    ensures ok <==> Footprint(tokens) <= PGSIZE
    ensures ok ==> esp' == Esp(tokens) && StackIs(m, v, Image(tokens))
  {
    hide StackIs, Strings, AllNulFree, Addrs, VectorFrom, WordBytes, m.Holding;
    esp' := esp;
    var totalLength, sp, numArgs;
    ok, totalLength, sp, numArgs := PushStrings(m, tokens, esp, v);
    if !ok { return; }
    ok, esp' := PushVector(m, totalLength, sp, numArgs, v, tokens);
    if !ok { return; }
    ok, esp' := PushFrame(m, esp', numArgs, v, tokens);
  }

  /** The three calls after the strings: padding, sentinel and pointers. */
  method PushVector(m: AddressSpace, totalLength: int, sp: int, numArgs: nat, ghost v: UserImage,
                    ghost tokens: seq<seq<Byte>>)
    returns (ok: bool, sp': int)
    requires StackIs(m, v, Strings(tokens)) && |Strings(tokens)| <= PGSIZE && AllNulFree(tokens)
    requires totalLength == |Strings(tokens)| && sp == PHYS_BASE - totalLength && numArgs == |tokens|
    modifies m
    ensures m.Valid() && m.frames.Keys == old(m.frames.Keys)
    ensures ok <==> |Vector(tokens)| <= PGSIZE
    ensures ok ==> sp' == PHYS_BASE - |Vector(tokens)| && StackIs(m, v, Vector(tokens))
  {
    hide StackIs, Strings, AllNulFree, Addrs, VectorFrom, Words, m.Holding;
    var argsPointer, total := sp, totalLength;
    ok, total, sp' := AddWordAlign(m, totalLength, sp, v, Strings(tokens));
    if !ok { return; }
    ok, sp' := AddNullChar(m, sp', v, Zeros(Pad(|Strings(tokens)|)) + Strings(tokens));
    if !ok { return; }
    ok, sp', argsPointer := AddArgumentAddress(m, numArgs, sp', argsPointer, v, tokens);
  }

  lemma VectorHasPointers(tokens: seq<seq<Byte>>)
    requires |Strings(tokens)| <= PGSIZE
    ensures 4 * |tokens| <= |Vector(tokens)|
  {}

  /** The last three calls of set_arguments_into_stack: argv, argc, return address. */
  method PushFrame(m: AddressSpace, sp: int, numArgs: nat, ghost v: UserImage, ghost tokens: seq<seq<Byte>>)
    returns (ok: bool, sp': int)
    requires |Strings(tokens)| <= PGSIZE && numArgs == |tokens| && |Vector(tokens)| <= PGSIZE
    requires StackIs(m, v, Vector(tokens)) && sp == PHYS_BASE - |Vector(tokens)|
    modifies m
    ensures m.Valid() && m.frames.Keys == old(m.frames.Keys)
    ensures ok <==> Footprint(tokens) <= PGSIZE
    ensures ok ==> sp' == Esp(tokens) && StackIs(m, v, Image(tokens))
  {
    hide StackIs, Strings, Addrs, VectorFrom, Vector, WordBytes, Footprint, Pad, m.Holding;
    VectorHasPointers(tokens);
    ok, sp' := AddCharPointers(m, sp, v, Vector(tokens));
    if !ok { return; }
    ghost var x := WordBytes(Esp(tokens) + 12) + Vector(tokens);
    ok, sp' := AddNumberOfArguments(m, sp', numArgs, v, x);
    if !ok { return; }
    ok, sp' := AddReturnAddress(m, sp', v, WordBytes(numArgs) + x);
  }
}

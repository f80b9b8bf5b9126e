/** What set_arguments_into_stack leaves on the stack page, and what a program's main
    reads back from it under the i386 calling convention. Addresses are 32-bit user
    addresses; the stack page is the last page below PHYS_BASE. */
module Arguments {
  import opened Bytes
  import opened Wrappers

  const PGSIZE := 4096
  const PHYS_BASE := 0xC000_0000
  const STACK_PAGE := PHYS_BASE - PGSIZE

  type Page = d: seq<Byte> | |d| == PGSIZE witness Zeros(PGSIZE)

  // ---------- strtok_r with separator " " ----------

  const SPACE: Byte := 32

  /** The maximal space-free pieces of a command line, in order. */
  function Tokens(cmd: seq<Byte>): seq<seq<Byte>> {
    if cmd == [] then []
    else if cmd[0] == SPACE then Tokens(cmd[1..])
    else [cmd[..TokenEnd(cmd)]] + Tokens(cmd[TokenEnd(cmd)..])
  }

  function TokenEnd(cmd: seq<Byte>): (n: nat)
    requires cmd != [] && cmd[0] != SPACE
    ensures 1 <= n <= |cmd|
  {
    if |cmd| > 1 && cmd[1] != SPACE then 1 + TokenEnd(cmd[1..]) else 1
  }

  /** An empty command line has no word, and one without a space is one word. */
  lemma {:induction false} TokensOfWord(w: seq<Byte>)
    requires SPACE !in w
    ensures Tokens(w) == if w == [] then [] else [w]
  {
    if w != [] {
      TokenIsAll(w);
      assert w[|w|..] == [] && w[..|w|] == w;
    }
  }

  lemma {:induction false} TokenIsAll(w: seq<Byte>)
    requires w != [] && SPACE !in w
    ensures TokenEnd(w) == |w|
  {
    if |w| > 1 {
      TokenIsAll(w[1..]);
    }
  }

  lemma {:induction false} TokenEndsAtSpace(a: seq<Byte>, b: seq<Byte>)
    requires a != [] && a[0] != SPACE
    ensures TokenEnd(a + [SPACE] + b) == TokenEnd(a)
  {
    var cmd := a + [SPACE] + b;
    if |a| > 1 && a[1] != SPACE {
      assert cmd[1..] == a[1..] + [SPACE] + b;
      TokenEndsAtSpace(a[1..], b);
    }
  }

  /** A space separates the words before it from those after it, and their order stays. */
  lemma {:induction false} TokensSplit(a: seq<Byte>, b: seq<Byte>)
    ensures Tokens(a + [SPACE] + b) == Tokens(a) + Tokens(b)
    decreases |a|
  {
    var cmd := a + [SPACE] + b;
    if a == [] {
      assert cmd[1..] == b;
    } else if a[0] == SPACE {
      assert cmd[1..] == a[1..] + [SPACE] + b;
      TokensSplit(a[1..], b);
    } else {
      var n := TokenEnd(a);
      TokenEndsAtSpace(a, b);
      assert cmd[..n] == a[..n] && cmd[n..] == a[n..] + [SPACE] + b;
      TokensSplit(a[n..], b);
      assert [a[..n]] + (Tokens(a[n..]) + Tokens(b)) == ([a[..n]] + Tokens(a[n..])) + Tokens(b);
    }
  }

  ghost predicate AllNulFree(tokens: seq<seq<Byte>>) {
    forall i :: 0 <= i < |tokens| ==> NulFree(tokens[i])
  }

  lemma {:induction false} TokensAreStrings(cmd: seq<Byte>)
    requires NulFree(cmd)
    ensures AllNulFree(Tokens(cmd))
    decreases |cmd|
  {
    if cmd != [] {
      if cmd[0] == SPACE {
        TokensAreStrings(cmd[1..]);
      } else {
        TokensAreStrings(cmd[TokenEnd(cmd)..]);
      }
    }
  }

  // ---------- The layout, from the top of the page down ----------

  /** The strings as split_and_insert leaves them: each token below the one before it. */
  function Strings(tokens: seq<seq<Byte>>): seq<Byte> {
    if tokens == [] then []
    else tokens[|tokens| - 1] + [0] + Strings(tokens[..|tokens| - 1])
  }

  /** Bytes of padding that make n a multiple of 4. */
  function Pad(n: nat): (p: nat)
    ensures p < 4 && (n + p) % 4 == 0
  {
    (4 - n % 4) % 4
  }

  /** Bytes of stack the arguments take. */
  function Footprint(tokens: seq<seq<Byte>>): (n: nat)
    ensures n % 4 == 0
  {
    |Strings(tokens)| + Pad(|Strings(tokens)|) + 4 * |tokens| + 16
  }

  function Esp(tokens: seq<seq<Byte>>): int {
    PHYS_BASE - Footprint(tokens)
  }

  /** The bytes of all strings with their NULs. */
  function TotalLength(tokens: seq<seq<Byte>>): nat {
    if tokens == [] then 0 else |tokens[0]| + 1 + TotalLength(tokens[1..])
  }

  lemma {:induction false} TotalLengthLast(tokens: seq<seq<Byte>>, t: seq<Byte>)
    ensures TotalLength(tokens + [t]) == TotalLength(tokens) + |t| + 1
  {
    if tokens == [] {
      assert tokens + [t] == [t];
    } else {
      assert (tokens + [t])[1..] == tokens[1..] + [t];
      TotalLengthLast(tokens[1..], t);
    }
  }

  /** The footprint is the total length rounded up to a multiple of 4, a pointer for each
      word, and four words more. */
  lemma {:induction false} FootprintIs(tokens: seq<seq<Byte>>)
    ensures |Strings(tokens)| == TotalLength(tokens)
    ensures Footprint(tokens) == (TotalLength(tokens) + 3) / 4 * 4 + 4 * |tokens| + 16
    decreases |tokens|
  {
    if tokens != [] {
      var init, t := tokens[..|tokens| - 1], tokens[|tokens| - 1];
      FootprintIs(init);
      TotalLengthLast(init, t);
      assert tokens == init + [t];
    }
  }

  /** Where token i's string starts. */
  function Addr(tokens: seq<seq<Byte>>, i: nat): int
    requires i < |tokens|
  {
    PHYS_BASE - |Strings(tokens[..i + 1])|
  }

  /** The strings with the padding and the null sentinel below them. */
  function Bottom(tokens: seq<seq<Byte>>): (b: seq<Byte>)
    ensures |b| == Footprint(tokens) - 12 - 4 * |tokens|
  {
    Zeros(4) + (Zeros(Pad(|Strings(tokens)|)) + Strings(tokens))
  }

  function Addrs(tokens: seq<seq<Byte>>, from: nat): (ws: seq<Word>)
    requires from <= |tokens| && |Strings(tokens)| <= PGSIZE
    ensures |ws| == |tokens| - from
    decreases |tokens| - from
  {
    if from == |tokens| then []
    else
      StringsSuffix(tokens, from + 1);
      [Addr(tokens, from)] + Addrs(tokens, from + 1)
  }

  /** Everything from esp up to PHYS_BASE: return address, argc, argv, the pointers, the
      sentinel, the padding and the strings. */
  function Image(tokens: seq<seq<Byte>>): (b: seq<Byte>)
    requires Footprint(tokens) <= PGSIZE
    ensures |b| == Footprint(tokens)
  {
    WordBytes(0) + (WordBytes(|tokens|) + (WordBytes(Esp(tokens) + 12) + Vector(tokens)))
  }

  /** A zeroed page holding x at its top end. */
  function Down(x: seq<Byte>): Page
    requires |x| <= PGSIZE
  {
    Zeros(PGSIZE - |x|) + x
  }

  function Overwrite(d: Page, o: nat, b: seq<Byte>): Page
    requires o + |b| <= PGSIZE
  {
    d[..o] + b + d[o + |b|..]
  }

  lemma PushDown(x: seq<Byte>, b: seq<Byte>)
    requires |b| + |x| <= PGSIZE
    ensures Overwrite(Down(x), PGSIZE - |x| - |b|, b) == Down(b + x)
  {}

  lemma ZerosDown(x: seq<Byte>, n: nat)
    requires n + |x| <= PGSIZE
    ensures Down(Zeros(n) + x) == Down(x)
  {}

  /** The strings of the first i tokens are the upper end of the strings of all. */
  lemma {:induction false} StringsSuffix(tokens: seq<seq<Byte>>, i: nat)
    requires i <= |tokens|
    ensures |Strings(tokens[..i])| <= |Strings(tokens)|
    ensures Strings(tokens)[|Strings(tokens)| - |Strings(tokens[..i])|..] == Strings(tokens[..i])
    decreases |tokens|
  {
    if i == |tokens| {
      assert tokens[..i] == tokens;
    } else {
      var init := tokens[..|tokens| - 1];
      StringsSuffix(init, i);
      assert init[..i] == tokens[..i];
    }
  }

  /** A page whose upper end is Strings(tokens) holds token i at Addr(tokens, i). */
  lemma StringAt(d: Page, tokens: seq<seq<Byte>>, i: nat)
    requires AllNulFree(tokens) && i < |tokens| && |Strings(tokens)| <= PGSIZE
    requires Top(d, Strings(tokens))
    ensures STACK_PAGE <= Addr(tokens, i) < PHYS_BASE
    ensures Strlen(d, Addr(tokens, i) - STACK_PAGE) == |tokens[i]|
    ensures CString(d, Addr(tokens, i) - STACK_PAGE) == tokens[i]
    ensures Addr(tokens, i) + |tokens[i]| + 1 == PHYS_BASE - |Strings(tokens[..i])|
  {
    StringsSuffix(tokens, i + 1);
    OneString(tokens, i);
    var s, rest := Strings(tokens[..i + 1]), Strings(tokens[..i]);
    var skip := |Strings(tokens)| - |s|;
    assert d[PGSIZE - |s|..] == s by {
      assert d[PGSIZE - |Strings(tokens)|..][skip..] == d[PGSIZE - |s|..];
    }
    hide Strings, Top, Strlen, CString;
    StringOnTop(d, tokens[i], rest);
  }

  lemma OneString(tokens: seq<seq<Byte>>, i: nat)
    requires i < |tokens|
    ensures Strings(tokens[..i + 1]) == tokens[i] + [0] + Strings(tokens[..i])
  {
    assert tokens[..i + 1][..i] == tokens[..i];
  }

  lemma StringOnTop(d: Page, token: seq<Byte>, rest: seq<Byte>)
    requires NulFree(token) && |token| + 1 + |rest| <= PGSIZE
    requires d[PGSIZE - (|token| + 1 + |rest|)..] == token + [0] + rest
    ensures var o := PGSIZE - (|token| + 1 + |rest|); Strlen(d, o) == |token| && CString(d, o) == token
  {
    var o := PGSIZE - (|token| + 1 + |rest|);
    assert d[o..o + |token|] == d[o..][..|token|] == token;
    assert d[o + |token|] == d[o..][|token|] == 0;
    StrlenOfString(d, o, token);
  }

  // ---------- What main reads ----------

  function ReadWord(d: Page, a: int): Word
    requires STACK_PAGE <= a && a + 4 <= PHYS_BASE
  {
    WordAt(d, a - STACK_PAGE)
  }

  /** The string a pointer stored at address a denotes, if it stays in the page. */
  function ReadString(d: Page, a: int): Option<seq<Byte>>
    requires STACK_PAGE <= a && a + 4 <= PHYS_BASE
  {
    var p := ReadWord(d, a);
    if STACK_PAGE <= p < PHYS_BASE then Some(CString(d, p - STACK_PAGE)) else None
  }

  /** The arguments main(argc, argv) finds when entered with stack pointer esp: argc at
      esp + 4, argv at esp + 8, then argc string pointers and a null pointer at argv. */
  function Decode(d: Page, esp: int): Option<seq<Option<seq<Byte>>>> {
    if !(STACK_PAGE <= esp && esp + 12 <= PHYS_BASE) then None
    else
      var argc := ReadWord(d, esp + 4);
      var argv := ReadWord(d, esp + 8);
      if !(STACK_PAGE <= argv && argv + 4 * argc + 4 <= PHYS_BASE) then None
      else if ReadWord(d, argv + 4 * argc) != 0 then None
      else Some(seq(argc, i requires 0 <= i < argc => ReadString(d, argv + 4 * i)))
  }

  lemma Aligned(esp: int, footprint: nat)
    requires footprint % 4 == 0 && esp == PHYS_BASE - footprint
    ensures esp % 4 == 0
  {}

  lemma {:induction false} AddrsAt(tokens: seq<seq<Byte>>, from: nat, i: nat)
    requires |Strings(tokens)| <= PGSIZE && from + i < |tokens|
    ensures Addrs(tokens, from)[i] == Addr(tokens, from + i)
    decreases i
  {
    if i != 0 {
      AddrsAt(tokens, from + 1, i - 1);
    }
  }

  /** x is the upper end of page d. */
  ghost predicate Top(d: Page, x: seq<Byte>) {
    |x| <= PGSIZE && d[PGSIZE - |x|..] == x
  }

  lemma DownTop(x: seq<Byte>)
    requires |x| <= PGSIZE
    ensures Top(Down(x), x)
  {}

  lemma Peel(d: Page, b: seq<Byte>, x: seq<Byte>)
    requires Top(d, b + x)
    ensures Top(d, x)
    ensures d[PGSIZE - |x| - |b|..PGSIZE - |x|] == b
  {
    var o := PGSIZE - |x| - |b|;
    assert d[o..][|b|..] == d[PGSIZE - |x|..];
    assert d[o..][..|b|] == d[o..PGSIZE - |x|];
    assert (b + x)[..|b|] == b && (b + x)[|b|..] == x;
  }

  lemma PeelWord(d: Page, w: Word, x: seq<Byte>)
    requires Top(d, WordBytes(w) + x)
    ensures Top(d, x)
    ensures WordAt(d, PGSIZE - |x| - 4) == w
  {
    Peel(d, WordBytes(w), x);
    WordRoundTrip(d, PGSIZE - |x| - 4, w);
  }

  /** The pointers to the tokens from number from on, the sentinel and the strings. */
  function VectorFrom(tokens: seq<seq<Byte>>, from: nat): (b: seq<Byte>)
    requires from <= |tokens| && |Strings(tokens)| <= PGSIZE
    ensures |b| == Footprint(tokens) - 12 - 4 * from
  {
    Words(Addrs(tokens, from)) + Bottom(tokens)
  }

  function Vector(tokens: seq<seq<Byte>>): (b: seq<Byte>)
    requires |Strings(tokens)| <= PGSIZE
    ensures |b| == Footprint(tokens) - 12
  {
    VectorFrom(tokens, 0)
  }

  lemma VectorParts(d: Page, tokens: seq<seq<Byte>>)
    requires Footprint(tokens) <= PGSIZE && Top(d, Vector(tokens))
    ensures var o, n := PGSIZE - |Vector(tokens)|, |tokens|;
            && d[o..o + 4 * n] == Words(Addrs(tokens, 0))
            && WordAt(d, o + 4 * n) == 0
            && Top(d, Strings(tokens))
  {
    hide Strings, Addrs, Words, Bottom, WordAt;
    Peel(d, Words(Addrs(tokens, 0)), Bottom(tokens));
    BottomParts(d, tokens);
  }

  lemma BottomParts(d: Page, tokens: seq<seq<Byte>>)
    requires Top(d, Bottom(tokens))
    ensures WordAt(d, PGSIZE - |Bottom(tokens)|) == 0
    ensures Top(d, Strings(tokens))
  {
    assert Zeros(4) == WordBytes(0);
    PeelWord(d, 0, Zeros(Pad(|Strings(tokens)|)) + Strings(tokens));
    Peel(d, Zeros(Pad(|Strings(tokens)|)), Strings(tokens));
  }

  lemma PointerAt(d: Page, tokens: seq<seq<Byte>>, i: nat)
    requires AllNulFree(tokens) && Footprint(tokens) <= PGSIZE && i < |tokens|
    requires Top(d, Vector(tokens))
    ensures ReadString(d, Esp(tokens) + 12 + 4 * i) == Some(tokens[i])
  {
    VectorParts(d, tokens);
    WordInWords(d, PGSIZE - |Vector(tokens)|, Addrs(tokens, 0), i);
    AddrsAt(tokens, 0, i);
    ReadStringAt(d, tokens, Esp(tokens) + 12 + 4 * i, i);
  }

  lemma ReadStringAt(d: Page, tokens: seq<seq<Byte>>, a: int, i: nat)
    requires AllNulFree(tokens) && i < |tokens| && Top(d, Strings(tokens))
    requires STACK_PAGE <= a && a + 4 <= PHYS_BASE && ReadWord(d, a) == Addr(tokens, i)
    ensures ReadString(d, a) == Some(tokens[i])
  {
    assert |Strings(tokens)| <= PGSIZE;
    hide Strings, AllNulFree, Top, WordAt, Addr, CString;
    StringAt(d, tokens, i);
  }

  /** The three words pushed last. */
  lemma HeadWords(d: Page, tokens: seq<seq<Byte>>)
    requires Footprint(tokens) <= PGSIZE && Top(d, Image(tokens))
    ensures var o := PGSIZE - Footprint(tokens);
            && WordAt(d, o) == 0 && WordAt(d, o + 4) == |tokens|
            && WordAt(d, o + 8) == Esp(tokens) + 12
    ensures Top(d, Vector(tokens))
  {
    var x1 := WordBytes(Esp(tokens) + 12) + Vector(tokens);
    var x2 := WordBytes(|tokens|) + x1;
    PeelWord(d, 0, x2);
    PeelWord(d, |tokens|, x1);
    PeelWord(d, Esp(tokens) + 12, Vector(tokens));
  }

  /** The arguments as main should find them. */
  function AsSeen(tokens: seq<seq<Byte>>): seq<Option<seq<Byte>>> {
    seq(|tokens|, i requires 0 <= i < |tokens| => Some(tokens[i]))
  }

  lemma DecodeReads(d: Page, esp: int, tokens: seq<seq<Byte>>)
    requires STACK_PAGE <= esp && esp + 16 + 4 * |tokens| <= PHYS_BASE
    requires ReadWord(d, esp + 4) == |tokens| && ReadWord(d, esp + 8) == esp + 12
    requires ReadWord(d, esp + 12 + 4 * |tokens|) == 0
    requires forall i :: 0 <= i < |tokens| ==> ReadString(d, esp + 12 + 4 * i) == Some(tokens[i])
    ensures Decode(d, esp) == Some(AsSeen(tokens))
  {
    var args := Decode(d, esp).value;
    assert |args| == |tokens|;
    forall i | 0 <= i < |tokens|
      ensures args[i] == Some(tokens[i])
    {
      assert args[i] == ReadString(d, esp + 12 + 4 * i);
    }
    assert args == AsSeen(tokens);
  }

  lemma VectorReads(d: Page, tokens: seq<seq<Byte>>)
    requires AllNulFree(tokens) && Footprint(tokens) <= PGSIZE && Top(d, Vector(tokens))
    ensures ReadWord(d, Esp(tokens) + 12 + 4 * |tokens|) == 0
    ensures forall i :: 0 <= i < |tokens| ==> ReadString(d, Esp(tokens) + 12 + 4 * i) == Some(tokens[i])
  {
    VectorParts(d, tokens);
    forall i | 0 <= i < |tokens|
      ensures ReadString(d, Esp(tokens) + 12 + 4 * i) == Some(tokens[i])
    {
      PointerAt(d, tokens, i);
    }
  }

  /** Round trip: on a page that ends in the image, main sees exactly the tokens, argv
      points just above the three words pushed last, and the stack pointer is aligned. */
  lemma ArgumentsRoundTrip(d: Page, tokens: seq<seq<Byte>>)
    requires AllNulFree(tokens) && Footprint(tokens) <= PGSIZE && Top(d, Image(tokens))
    ensures Esp(tokens) % 4 == 0
    ensures ReadWord(d, Esp(tokens)) == 0 && ReadWord(d, Esp(tokens) + 8) == Esp(tokens) + 12
    ensures Decode(d, Esp(tokens)) == Some(AsSeen(tokens))
  {
    hide Strings, Decode, Top, Image, Vector, ReadString, AsSeen, AllNulFree, WordAt;
    HeadWords(d, tokens);
    VectorReads(d, tokens);
    DecodeReads(d, Esp(tokens), tokens);
    Aligned(Esp(tokens), Footprint(tokens));
  }

  // ---------- A command line that does not fit ----------

  /** "a a a ..." with n words. */
  function ShortWords(n: nat): (cmd: seq<Byte>)
    ensures |cmd| == 2 * n && NulFree(cmd)
  {
    if n == 0 then [] else [97, SPACE] + ShortWords(n - 1)
  }

  function OneLetter(n: nat): seq<seq<Byte>> {
    seq(n, _ => [97])
  }

  lemma {:induction false} ShortWordsTokens(n: nat)
    ensures Tokens(ShortWords(n)) == OneLetter(n)
  {
    if n > 0 {
      var cmd, rest := ShortWords(n), ShortWords(n - 1);
      ShortWordsTokens(n - 1);
      assert TokenEnd(cmd) == 1 && cmd[..1] == [97] && cmd[1..] == [SPACE] + rest && ([SPACE] + rest)[1..] == rest;
      assert Tokens(cmd[1..]) == Tokens(rest);
      assert OneLetter(n) == [[97]] + OneLetter(n - 1);
    }
  }

  lemma {:induction false} OneLetterLength(n: nat)
    ensures |Strings(OneLetter(n))| == 2 * n
  {
    if n > 0 {
      OneLetterLength(n - 1);
      assert OneLetter(n)[..n - 1] == OneLetter(n - 1);
    }
  }

  /** process_execute passes on command lines of up to PGSIZE - 1 bytes. One of 1400 bytes
      already needs more stack than the page has. */
  lemma ShortWordsOverflow() returns (cmd: seq<Byte>)
    ensures NulFree(cmd) && |cmd| == 1400 < PGSIZE && Footprint(Tokens(cmd)) > PGSIZE
  {
    cmd := ShortWords(700);
    ShortWordsTokens(700);
    OneLetterLength(700);
  }
}

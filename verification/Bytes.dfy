/** Bytes, little-endian 32-bit words and NUL-terminated strings, as the i386 kernel
    reads and writes them. */
module Bytes {
  type Byte = x: int | 0 <= x < 256

  const TWO_32 := 0x1_0000_0000

  type Word = x: int | 0 <= x < TWO_32

  type Half = x: int | 0 <= x < 0x1_0000

  function Zeros(n: nat): (z: seq<Byte>)
    ensures |z| == n && forall i :: 0 <= i < n ==> z[i] == 0
  {
    seq(n, _ => 0)
  }

  function WordBytes(w: Word): (b: seq<Byte>)
    ensures |b| == 4
  {
    [w % 256, w / 256 % 256, w / 0x1_0000 % 256, w / 0x100_0000]
  }

  /** The 32-bit word stored at offset o of d. */
  function WordAt(d: seq<Byte>, o: nat): Word
    requires o + 4 <= |d|
  {
    d[o] as int + 0x100 * (d[o + 1] as int) + 0x1_0000 * (d[o + 2] as int) + 0x100_0000 * (d[o + 3] as int)
  }

  /** The 16-bit half-word stored at offset o of d. */
  function HalfAt(d: seq<Byte>, o: nat): nat
    requires o + 2 <= |d|
  {
    d[o] as int + 0x100 * (d[o + 1] as int)
  }

  function HalfBytes(h: Half): (b: seq<Byte>)
    ensures |b| == 2
  {
    [h % 256, h / 256]
  }

  /** The least significant byte comes first. */
  lemma LittleEndian(b0: Byte, b1: Byte, b2: Byte, b3: Byte)
    ensures WordBytes(b0 + 0x100 * b1 + 0x1_0000 * b2 + 0x100_0000 * b3) == [b0, b1, b2, b3]
    ensures HalfBytes(b0 + 0x100 * b1) == [b0, b1]
  {
    var w := b0 + 0x100 * b1 + 0x1_0000 * b2 + 0x100_0000 * b3;
    LowByte(b0, b1 + 0x100 * b2 + 0x1_0000 * b3);
    LowByte(b1, b2 + 0x100 * b3);
    LowByte(b2, b3);
    LowByte(b0, b1);
    assert w / 0x1_0000 == w / 0x100 / 0x100 && w / 0x100_0000 == w / 0x1_0000 / 0x100;
  }

  lemma LowByte(b: Byte, high: nat)
    ensures (b + 0x100 * high) % 0x100 == b && (b + 0x100 * high) / 0x100 == high
  {}

  lemma HalfRoundTrip(d: seq<Byte>, o: nat, h: Half)
    requires o + 2 <= |d| && d[o..o + 2] == HalfBytes(h)
    ensures HalfAt(d, o) == h
  {
    assert d[o..o + 2][0] == d[o] && d[o..o + 2][1] == d[o + 1];
  }

  lemma WordRoundTrip(d: seq<Byte>, o: nat, w: Word)
    requires o + 4 <= |d| && d[o..o + 4] == WordBytes(w)
    ensures WordAt(d, o) == w
  {
    var b := d[o..o + 4];
    assert b[0] == d[o] && b[1] == d[o + 1] && b[2] == d[o + 2] && b[3] == d[o + 3];
    assert w / 0x1_0000 == w / 256 / 256 && w / 0x100_0000 == w / 256 / 256 / 256;
  }

  function Words(ws: seq<Word>): (b: seq<Byte>)
    ensures |b| == 4 * |ws|
  {
    if ws == [] then [] else WordBytes(ws[0]) + Words(ws[1..])
  }

  lemma {:induction false} WordsAt(ws: seq<Word>, i: nat)
    requires i < |ws|
    ensures Words(ws)[4 * i..4 * i + 4] == WordBytes(ws[i])
  {
    if i != 0 {
      WordsAt(ws[1..], i - 1);
      assert Words(ws)[4 * i..4 * i + 4] == Words(ws[1..])[4 * (i - 1)..4 * (i - 1) + 4];
    }
  }

  lemma SliceOfSlice(d: seq<Byte>, a: nat, b: nat, x: nat, y: nat)
    requires a <= b <= |d| && x <= y <= b - a
    ensures d[a..b][x..y] == d[a + x..a + y]
  {
    forall i | 0 <= i < y - x
      ensures d[a..b][x..y][i] == d[a + x..a + y][i]
    {
      assert d[a..b][x + i] == d[a + (x + i)];
    }
  }

  lemma WordInWords(d: seq<Byte>, o: nat, ws: seq<Word>, i: nat)
    requires i < |ws| && o + 4 * |ws| <= |d| && d[o..o + 4 * |ws|] == Words(ws)
    ensures WordAt(d, o + 4 * i) == ws[i]
  {
    hide Words, WordBytes, WordAt;
    WordsAt(ws, i);
    SliceOfSlice(d, o, o + 4 * |ws|, 4 * i, 4 * i + 4);
    WordRoundTrip(d, o + 4 * i, ws[i]);
  }

  /** strlen: how many bytes from offset o come before the first NUL. */
  function Strlen(d: seq<Byte>, o: nat): (n: nat)
    requires o <= |d|
    ensures o + n <= |d|
    decreases |d| - o
  {
    if o == |d| || d[o] == 0 then 0 else 1 + Strlen(d, o + 1)
  }

  ghost predicate NulFree(t: seq<Byte>) {
    forall i :: 0 <= i < |t| ==> t[i] != 0
  }

  lemma {:induction false} StrlenOfString(d: seq<Byte>, o: nat, t: seq<Byte>)
    requires NulFree(t) && o + |t| < |d| && d[o..o + |t|] == t && d[o + |t|] == 0
    ensures Strlen(d, o) == |t|
    decreases |t|
  {
    if t != [] {
      assert d[o] == d[o..o + |t|][0];
      assert d[o + 1..o + 1 + |t[1..]|] == d[o..o + |t|][1..] == t[1..];
      StrlenOfString(d, o + 1, t[1..]);
    }
  }

  /** The string a char pointer to offset o denotes. */
  function CString(d: seq<Byte>, o: nat): seq<Byte>
    requires o <= |d|
  {
    d[o..o + Strlen(d, o)]
  }
}

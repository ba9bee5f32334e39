/** Physical memory as 2^30 little-endian 32-bit words, with its byte view. */
module Memory {
  import opened Bits

  const WORDS := 0x4000_0000

  function Place(k: nat): int
    requires k < 4
  {
    if k == 0 then 1 else if k == 1 then 0x100 else if k == 2 then 0x10000 else 0x1000000
  }

  function ByteOf(w: uint32, k: nat): byte
    requires k < 4
  {
    w / Place(k) % 256
  }

  function Word(b0: byte, b1: byte, b2: byte, b3: byte): uint32 {
    b0 + 0x100 * b1 + 0x10000 * b2 + 0x1000000 * b3
  }

  lemma LowByte(b: byte, q: nat)
    ensures (b + 0x100 * q) / 0x100 == q && (b + 0x100 * q) % 0x100 == b
  {
  }

  lemma Shifted(w: nat)
    ensures w / 0x10000 == w / 0x100 / 0x100 && w / 0x1000000 == w / 0x100 / 0x100 / 0x100
  {
  }

  lemma Disassemble(b0: byte, b1: byte, b2: byte, b3: byte)
    ensures var w := Word(b0, b1, b2, b3);
      ByteOf(w, 0) == b0 && ByteOf(w, 1) == b1 && ByteOf(w, 2) == b2 && ByteOf(w, 3) == b3
  {
    LowByte(b0, b1 + 0x100 * (b2 + 0x100 * b3));
    LowByte(b1, b2 + 0x100 * b3);
    LowByte(b2, b3);
    Shifted(Word(b0, b1, b2, b3));
  }

  lemma Assemble(w: uint32)
    ensures w == Word(ByteOf(w, 0), ByteOf(w, 1), ByteOf(w, 2), ByteOf(w, 3))
  {
    Shifted(w);
    assert w / 0x100 / 0x100 / 0x100 < 0x100;
  }

  function SetByte(w: uint32, k: nat, b: byte): (r: uint32)
    requires k < 4
    ensures forall j: nat :: j < 4 ==> ByteOf(r, j) == if j == k then b else ByteOf(w, j)
  {
    var b0 := if k == 0 then b else ByteOf(w, 0);
    var b1 := if k == 1 then b else ByteOf(w, 1);
    var b2 := if k == 2 then b else ByteOf(w, 2);
    var b3 := if k == 3 then b else ByteOf(w, 3);
    Disassemble(b0, b1, b2, b3);
    Word(b0, b1, b2, b3)
  }

  /** Two words with the same four bytes are the same word. */
  lemma SameBytes(v: uint32, w: uint32)
    requires forall k: nat :: k < 4 ==> ByteOf(v, k) == ByteOf(w, k)
    ensures v == w
  {
    hide ByteOf, Word;
    Assemble(v);
    Assemble(w);
  }

  function ReadByte(s: seq<uint32>, a: uint32): byte
    requires |s| == WORDS
  {
    ByteOf(s[a / 4], a % 4)
  }

  /** The low byte of a word comes first. */
  lemma LittleEndian(s: seq<uint32>, w: nat)
    requires |s| == WORDS && w < WORDS
    ensures s[w] == ReadByte(s, 4 * w) + 0x100 * ReadByte(s, 4 * w + 1)
                  + 0x10000 * ReadByte(s, 4 * w + 2) + 0x1000000 * ReadByte(s, 4 * w + 3)
  {
    hide ByteOf;
    Assemble(s[w]);
  }

  function WriteByte(s: seq<uint32>, a: uint32, b: byte): (r: seq<uint32>)
    requires |s| == WORDS
    ensures |r| == WORDS
  {
    s[a / 4 := SetByte(s[a / 4], a % 4, b)]
  }

  lemma ReadWrite(s: seq<uint32>, a: uint32, b: byte, c: uint32)
    requires |s| == WORDS
    ensures ReadByte(WriteByte(s, a, b), c) == if c == a then b else ReadByte(s, c)
  {
    hide ByteOf;
    assert SetByte(s[a / 4], a % 4, b) == WriteByte(s, a, b)[a / 4];
  }

  /** memset(p, 0, n) as coded: one byte after the other, addresses wrapping at 2^32. */
  function Zeroed(s: seq<uint32>, p: uint32, n: nat): (r: seq<uint32>)
    requires |s| == WORDS
    ensures |r| == WORDS
  {
    if n == 0 then s else WriteByte(Zeroed(s, p, n - 1), Wrap(p + n - 1), 0)
  }

  lemma {:induction false} ZeroedBytes(s: seq<uint32>, p: uint32, n: nat, c: uint32)
    requires |s| == WORDS && p + n <= U32
    ensures ReadByte(Zeroed(s, p, n), c) == if p <= c < p + n then 0 else ReadByte(s, c)
  {
    hide ByteOf, WriteByte, ReadByte;
    if n > 0 {
      assert Wrap(p + n - 1) == p + n - 1;
      ZeroedBytes(s, p, n - 1, c);
      ReadWrite(Zeroed(s, p, n - 1), p + n - 1, 0, c);
    }
  }

  /** In words: those covered are zero, those outside are untouched. */
  lemma ZeroedWords(s: seq<uint32>, p: uint32, n: nat, w: nat)
    requires |s| == WORDS && p + n <= U32 && w < WORDS
    ensures p <= 4 * w && 4 * w + 4 <= p + n ==> Zeroed(s, p, n)[w] == 0
    ensures 4 * w + 4 <= p || p + n <= 4 * w ==> Zeroed(s, p, n)[w] == s[w]
  {
    hide ByteOf, Zeroed;
    var z := Zeroed(s, p, n);
    forall k: nat | k < 4
      ensures p <= 4 * w && 4 * w + 4 <= p + n ==> ByteOf(z[w], k) == 0
      ensures 4 * w + 4 <= p || p + n <= 4 * w ==> ByteOf(z[w], k) == ByteOf(s[w], k)
    {
      ZeroedBytes(s, p, n, 4 * w + k);
      assert (4 * w + k) / 4 == w && (4 * w + k) % 4 == k;
    }
    if p <= 4 * w && 4 * w + 4 <= p + n {
      forall k: nat | k < 4 ensures ByteOf(0, k) == 0 { ZeroByte(k); }
      SameBytes(z[w], 0);
    }
    if 4 * w + 4 <= p || p + n <= 4 * w {
      SameBytes(z[w], s[w]);
    }
  }

  lemma ZeroByte(k: nat)
    requires k < 4
    ensures ByteOf(0, k) == 0
  {
  }
}

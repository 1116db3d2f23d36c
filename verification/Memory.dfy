/** Byte memory with page protections, and the 32-bit little-endian words inside it. */
module Memory {
  import opened Base

  // The accessible bytes, by address.
  type Mem = map<int, Byte>

  predicate HasWord(m: Mem, a: int) {
    a in m && a + 1 in m && a + 2 in m && a + 3 in m
  }

  function ReadWord(m: Mem, a: int): Word
    requires HasWord(m, a)
  {
    Join(m[a], m[a + 1], m[a + 2], m[a + 3])
  }

  function Join(b0: Byte, b1: Byte, b2: Byte, b3: Byte): Word {
    var h3: int := b3;
    var h2: int := b2 + 0x100 * h3;
    var h1: int := b1 + 0x100 * h2;
    b0 + 0x100 * h1
  }

  /** The i-th byte of a word, least significant first. */
  function ByteOf(w: Word, i: int): Byte
    requires 0 <= i < 4
  {
    if i == 0 then w % 0x100
    else if i == 1 then w / 0x100 % 0x100
    else if i == 2 then w / 0x100 / 0x100 % 0x100
    else w / 0x100 / 0x100 / 0x100
  }

  function WriteWord(m: Mem, a: int, w: Word): Mem
    requires HasWord(m, a)
  {
    m[a := ByteOf(w, 0)][a + 1 := ByteOf(w, 1)][a + 2 := ByteOf(w, 2)][a + 3 := ByteOf(w, 3)]
  }

  lemma SplitThenJoin(w: Word)
    ensures Join(ByteOf(w, 0), ByteOf(w, 1), ByteOf(w, 2), ByteOf(w, 3)) == w
  {
    var h1 := w / 0x100;
    var h2 := h1 / 0x100;
    assert w == w % 0x100 + 0x100 * h1;
    assert h1 == h1 % 0x100 + 0x100 * h2;
    assert h2 == h2 % 0x100 + 0x100 * (h2 / 0x100);
  }

  lemma LowByte(b: Byte, h: int)
    ensures (b + 0x100 * h) % 0x100 == b && (b + 0x100 * h) / 0x100 == h
  {
  }

  lemma JoinThenSplit(b0: Byte, b1: Byte, b2: Byte, b3: Byte)
    ensures var w := Join(b0, b1, b2, b3);
            ByteOf(w, 0) == b0 && ByteOf(w, 1) == b1 && ByteOf(w, 2) == b2 && ByteOf(w, 3) == b3
  {
    var h2: int := b2 + 0x100 * b3 as int;
    var h1: int := b1 + 0x100 * h2;
    LowByte(b0, h1);
    LowByte(b1, h2);
    LowByte(b2, b3);
  }

  /** A word written is the word read back, its bytes the least significant first; every byte outside it
      is as before. */
  lemma WriteThenRead(m: Mem, a: int, w: Word)
    requires HasWord(m, a)
    ensures var m' := WriteWord(m, a, w);
            && m'.Keys == m.Keys
            && ReadWord(m', a) == w
            && m'[a] == w % 0x100 && m'[a + 1] == w / 0x100 % 0x100
            && m'[a + 2] == w / 0x1_0000 % 0x100 && m'[a + 3] == w / 0x100_0000
            && (forall b :: b in m && !(a <= b < a + 4) ==> m'[b] == m[b])
  {
    SplitThenJoin(w);
    assert w / 0x100 / 0x100 == w / 0x1_0000 && w / 0x100 / 0x100 / 0x100 == w / 0x100_0000;
  }

  /** Two memories that agree on a word agree on its bytes. */
  lemma SameWordSameByte(m: Mem, m': Mem, a: int, x: int)
    requires HasWord(m, a) && HasWord(m', a) && ReadWord(m, a) == ReadWord(m', a)
    requires a <= x < a + 4
    ensures m[x] == m'[x]
  {
    JoinThenSplit(m[a], m[a + 1], m[a + 2], m[a + 3]);
    JoinThenSplit(m'[a], m'[a + 1], m'[a + 2], m'[a + 3]);
  }

  // The protection bits of a page.
  datatype Prot = Prot(r: bool, w: bool, x: bool)

  const PROT_NONE := Prot(false, false, false)
  const PROT_READ := Prot(true, false, false)
  const PROT_EXEC := Prot(false, false, true)

  // The address space a loader works on. Protections are kept per page start.
  class AddressSpace {
    var bytes: Mem
    var prot: map<int, Prot>

    constructor ()
      ensures bytes == map[] && prot == map[]
    {
      bytes, prot := map[], map[];
    }
  }
}

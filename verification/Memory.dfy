// The flat, side-effect-free memory both processors run against: one byte per 32-bit address,
// multi-byte accesses big-endian, addresses wrapping at 2^32.
module Memory {
  import opened Words

  type Mem = map<Word, Byte>

  function Read8(m: Mem, a: Word): Byte {
    if a in m then m[a] else 0
  }

  function Read16(m: Mem, a: Word): Half {
    Read8(m, a) * 0x100 + Read8(m, U32(a + 1))
  }

  function Read32(m: Mem, a: Word): Word {
    Read16(m, a) * 0x1_0000 + Read16(m, U32(a + 2))
  }

  function Write8(m: Mem, a: Word, v: Byte): Mem {
    m[a := v]
  }

  function Write16(m: Mem, a: Word, v: Half): Mem {
    Write8(Write8(m, a, v / 0x100), U32(a + 1), v % 0x100)
  }

  function Write32(m: Mem, a: Word, v: Word): Mem {
    Write16(Write16(m, a, v / 0x1_0000), U32(a + 2), v % 0x1_0000)
  }

  /** How far address b lies above address a, going round the 32-bit space. */
  function Gap(a: Word, b: Word): Word {
    U32(b - a)
  }

  /** A word read back where it was written is the word written. */
  lemma ReadAfterWrite32(m: Mem, a: Word, v: Word)
    ensures Read32(Write32(m, a, v), a) == v
  {
    assert U32(U32(a + 2) + 1) == U32(a + 3);
    var p := Write16(m, a, v / 0x1_0000);
    var w := Write32(m, a, v);
    assert a != U32(a + 2) && a != U32(a + 3) && U32(a + 1) != U32(a + 2) && U32(a + 1) != U32(a + 3);
    assert Read8(w, a) == Read8(p, a) == v / 0x1_0000 / 0x100;
    assert Read8(w, U32(a + 1)) == Read8(p, U32(a + 1)) == v / 0x1_0000 % 0x100;
    assert Read8(w, U32(a + 2)) == v % 0x1_0000 / 0x100;
    assert Read8(w, U32(a + 3)) == v % 0x1_0000 % 0x100;
  }

  /** A word write changes no byte outside the four it covers. */
  lemma ByteElsewhere(m: Mem, a: Word, v: Word, b: Word)
    requires Gap(a, b) >= 4
    ensures Read8(Write32(m, a, v), b) == Read8(m, b)
  {
    assert b != a && b != U32(a + 1) && b != U32(a + 2) && b != U32(U32(a + 2) + 1);
  }

  lemma GapStep(a: Word, b: Word, k: Word)
    requires Gap(a, b) + k < 0x1_0000_0000
    ensures Gap(a, U32(b + k)) == Gap(a, b) + k
  {
  }

  /** A word write leaves alone every word at least four bytes away, on either side. */
  lemma ReadElsewhere32(m: Mem, a: Word, v: Word, b: Word)
    requires 4 <= Gap(a, b) <= 0xFFFF_FFFC
    ensures Read32(Write32(m, a, v), b) == Read32(m, b)
  {
    GapStep(a, b, 1);
    GapStep(a, b, 2);
    GapStep(a, U32(b + 2), 1);
    var w := Write32(m, a, v);
    forall c | c in {b, U32(b + 1), U32(b + 2), U32(U32(b + 2) + 1)}
      ensures Read8(w, c) == Read8(m, c)
    {
      ByteElsewhere(m, a, v, c);
    }
    SameBytes(w, m, b);
  }

  lemma SameBytes(m: Mem, m': Mem, b: Word)
    requires Read8(m, b) == Read8(m', b) && Read8(m, U32(b + 1)) == Read8(m', U32(b + 1))
    requires Read8(m, U32(b + 2)) == Read8(m', U32(b + 2))
    requires Read8(m, U32(U32(b + 2) + 1)) == Read8(m', U32(U32(b + 2) + 1))
    ensures Read32(m, b) == Read32(m', b)
  {
  }
}

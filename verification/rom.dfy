/** The read-only PROM image of src/main.cpp (`ROMRegion`): a byte vector with a
    base address, read as bounds-checked big-endian 32-bit words.  Loading the
    bytes from a file is host I/O and is represented by the `data` field. */
module Rom {
  import opened Base

  datatype RomRegion = RomRegion(base: u64, data: seq<u8>)

  /** Where the PROM is intended to appear in the guest's address space (kseg1). */
  const PROM_VIRT_BASE: u64 := 0xBFC0_0000

  /** The value every out-of-range read returns. */
  const ALL_ONES: u32 := 0xFFFF_FFFF

  /** The constructor: an empty region at `base`, by default the PROM base. */
  function Create(base: u64 := PROM_VIRT_BASE): (r: RomRegion)
    ensures BaseAddr(r) == base && |r.data| == 0
  {
    RomRegion(base, [])
  }

  /** `base_addr`: the address the region was constructed with. */
  function BaseAddr(r: RomRegion): (b: u64)
    ensures b == r.base
  {
    r.base
  }

  // ----- big-endian words ---------------------------------------------------------

  /** `b0 << 24 | b1 << 16 | b2 << 8 | b3`; the four bytes occupy disjoint bit
      ranges, so the `|` is a sum. */
  function WordBE(b0: u8, b1: u8, b2: u8, b3: u8): u32 {
    b0 * 0x100_0000 + b1 * 0x1_0000 + b2 * 0x100 + b3
  }

  /** The four bytes of a word, most significant first. */
  function BytesBE(w: u32): (bs: seq<u8>)
    ensures |bs| == 4
  {
    [w / 0x100_0000, (w / 0x1_0000) % 0x100, (w / 0x100) % 0x100, w % 0x100]
  }

  /** Encoding the word spelled by four bytes gives back those bytes. */
  lemma BytesOfWord(b0: u8, b1: u8, b2: u8, b3: u8)
    ensures BytesBE(WordBE(b0, b1, b2, b3)) == [b0, b1, b2, b3]
  {
    var v := WordBE(b0, b1, b2, b3);
    DivModUnique(v, 0x100, b0 * 0x1_0000 + b1 * 0x100 + b2, b3);
    DivModUnique(v / 0x100, 0x100, b0 * 0x100 + b1, b2);
    DivModUnique(v, 0x1_0000, b0 * 0x100 + b1, b2 * 0x100 + b3);
    DivModUnique(v / 0x1_0000, 0x100, b0, b1);
    DivModUnique(v, 0x100_0000, b0, b1 * 0x1_0000 + b2 * 0x100 + b3);
  }

  /** Decoding the bytes of a word gives back the word. */
  lemma WordOfBytes(w: u32)
    ensures var bs := BytesBE(w); WordBE(bs[0], bs[1], bs[2], bs[3]) == w
  {
    var q1 := w / 0x100;
    var q2 := w / 0x1_0000;
    var q3 := w / 0x100_0000;
    assert w == q1 * 0x100 + w % 0x100;
    assert q1 == q2 * 0x100 + q1 % 0x100 by {
      DivModUnique(w, 0x1_0000, q1 / 0x100, (q1 % 0x100) * 0x100 + w % 0x100);
    }
    assert q2 == q3 * 0x100 + q2 % 0x100 by {
      DivModUnique(w, 0x100_0000, q2 / 0x100, (q2 % 0x100) * 0x1_0000 + (q1 % 0x100) * 0x100 + w % 0x100);
    }
  }

  /** Two words with the same bytes are the same word. */
  lemma BytesInjective(v: u32, w: u32)
    requires BytesBE(v) == BytesBE(w)
    ensures v == w
  {
    WordOfBytes(v);
    WordOfBytes(w);
  }

  // ----- read32_be ----------------------------------------------------------------

  /** `read32_be` with the bounds check as evidently intended: all ones unless
      the four bytes at `offset` lie inside the image, else the big-endian word
      they spell. */
  function Read32Be(r: RomRegion, offset: u64): (w: u32)
    ensures offset + 4 > |r.data| ==> w == ALL_ONES
    ensures offset + 4 <= |r.data| ==> BytesBE(w) == r.data[offset..offset + 4]
  {
    if offset + 4 > |r.data| then ALL_ONES
    else
      var d := r.data;
      BytesOfWord(d[offset], d[offset + 1], d[offset + 2], d[offset + 3]);
      assert d[offset..offset + 4] == [d[offset], d[offset + 1], d[offset + 2], d[offset + 3]];
      WordBE(d[offset], d[offset + 1], d[offset + 2], d[offset + 3])
  }

  /** What a `read32_be` call does: return a word, or index past the end of
      the vector (undefined behaviour in the source). */
  datatype ReadOutcome = Word(w: u32) | OutOfBounds

  /** `read32_be` as written: `offset + 4` is `size_t` arithmetic and wraps
      modulo 2^64 before the comparison with the size. */
  function Read32BeAsWritten(r: RomRegion, offset: u64): (o: ReadOutcome)
    ensures o.Word? && offset + 4 <= |r.data| ==> BytesBE(o.w) == r.data[offset..offset + 4]
    ensures o.OutOfBounds? <==> (offset + 4) % U64_MODULUS <= |r.data| < offset + 4
    ensures (offset + 4) % U64_MODULUS > |r.data| ==> o == Word(ALL_ONES)
  {
    if (offset + 4) % U64_MODULUS > |r.data| then Word(ALL_ONES)
    else if offset + 4 > |r.data| then OutOfBounds
    else Word(Read32Be(r, offset))
  }

  /** Away from the top four offsets the as-written check agrees with the
      intended one. */
  lemma AsWrittenAgreesBelowWrap(r: RomRegion, offset: u64)
    requires offset + 4 < U64_MODULUS
    ensures Read32BeAsWritten(r, offset) == Word(Read32Be(r, offset))
  {
  }

  /** The discrepancy: on a four-byte image, offset 2^64 - 2 makes `offset + 4`
      wrap to 2, the check passes and the read runs off the end of the vector,
      where the intended check answers all ones. */
  lemma AsWrittenOverreads()
    ensures Read32BeAsWritten(RomRegion(PROM_VIRT_BASE, [1, 2, 3, 4]), U64_MODULUS - 2) == OutOfBounds
    ensures Read32Be(RomRegion(PROM_VIRT_BASE, [1, 2, 3, 4]), U64_MODULUS - 2) == ALL_ONES
  {
  }

  // ----- images built from words ---------------------------------------------------------

  /** The big-endian byte image of a sequence of words. */
  function Serialize(ws: seq<u32>): (bs: seq<u8>)
    ensures |bs| == 4 * |ws|
  {
    if |ws| == 0 then [] else BytesBE(ws[0]) + Serialize(ws[1..])
  }

  lemma {:induction false} SerializeSlice(ws: seq<u32>, k: nat)
    requires k < |ws|
    ensures Serialize(ws)[4 * k..4 * k + 4] == BytesBE(ws[k])
    decreases k
  {
    if k > 0 {
      SerializeSlice(ws[1..], k - 1);
      assert Serialize(ws)[4 * k..4 * k + 4] == Serialize(ws[1..])[4 * (k - 1)..4 * (k - 1) + 4];
    } else {
      assert Serialize(ws)[0..4] == BytesBE(ws[0]);
    }
  }

  /** Reading word `k` of an image built from words yields that word. */
  lemma ReadSerialized(base: u64, ws: seq<u32>, k: nat)
    requires k < |ws| && 4 * k < U64_MODULUS
    ensures Read32Be(RomRegion(base, Serialize(ws)), 4 * k) == ws[k]
  {
    var w := Read32Be(RomRegion(base, Serialize(ws)), 4 * k);
    SerializeSlice(ws, k);
    BytesInjective(w, ws[k]);
  }
}

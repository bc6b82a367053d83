/**
 Where every bit of a decoded value is stored, for the packed layouts of the K-quant blocks. With the
 round trips this fixes both directions of each layout.
 */
module QuantBits {
  import opened QuantLayouts

  // ---------------------------------------------------------------- bits of the pieces

  lemma NibbleBit(x: bv8, h: nat, j: nat)
    requires h < 2 && j < 4
    ensures Bit(Nibble(x, h), j) == Bit(x, 4 * h + j)
  {
  }

  lemma CrumbBit(x: bv8, t: nat, j: nat)
    requires t < 4 && j < 2
    ensures Bit(Crumb(x, t), j) == Bit(x, 2 * t + j)
  {
  }

  lemma SixBit(n: bv8, c: bv8, j: nat)
    requires n < 16 && c < 4 && j < 6
    ensures Bit(Six(n, c), j) == if j < 4 then Bit(n, j) else Bit(c, j - 4)
  {
  }

  lemma PiecesSmall(x: bv8, h: nat, t: nat)
    requires h < 2 && t < 4
    ensures Nibble(x, h) < 16 && Crumb(x, t) < 4
  {
  }

  /** A six-bit number from nibble h of x and crumb t of y. */
  lemma JoinedBit(x: bv8, h: nat, y: bv8, t: nat, j: nat)
    requires h < 2 && t < 4 && j < 6
    ensures Bit(Six(Nibble(x, h), Crumb(y, t)), j) == if j < 4 then Bit(x, 4 * h + j) else Bit(y, 2 * t + (j - 4))
  {
    hide Bit, Six, Nibble, Crumb;
    PiecesSmall(x, h, 0);
    PiecesSmall(y, 0, t);
    SixBit(Nibble(x, h), Crumb(y, t), j);
    if j < 4 {
      NibbleBit(x, h, j);
    } else {
      CrumbBit(y, t, j - 4);
    }
  }

  // ---------------------------------------------------------------- the layouts

  /** Q4_K and Q5_K: bits 0 to 5 of the scale and of the minimum of group g. */
  lemma ScaleBits(s: seq<bv8>, g: nat, j: nat)
    requires |s| == 12 && g < 8 && j < 6
    ensures Bit(GetScaleMin(s, g).sc, j) ==
            if g < 4 then Bit(s[g], j) else if j < 4 then Bit(s[g + 4], j) else Bit(s[g - 4], j + 2)
    ensures Bit(GetScaleMin(s, g).mn, j) ==
            if g < 4 then Bit(s[g + 4], j) else if j < 4 then Bit(s[g + 4], j + 4) else Bit(s[g], j + 2)
  {
    if g < 4 {
      LowSix(s[g], j);
      LowSix(s[g + 4], j);
    } else {
      MixedSix(s[g + 4], s[g - 4], j);
      MixedSix(s[g + 4], s[g], j);
    }
  }

  lemma LowSix(x: bv8, j: nat)
    requires j < 6
    ensures Bit(x & 63, j) == Bit(x, j)
  {
  }

  lemma MixedSix(x: bv8, y: bv8, j: nat)
    requires j < 6
    ensures Bit((x & 0xF) | ((y >> 6) << 4), j) == if j < 4 then Bit(x, j) else Bit(y, j + 2)
    ensures Bit((x >> 4) | ((y >> 6) << 4), j) == if j < 4 then Bit(x, j + 4) else Bit(y, j + 2)
  {
  }

  lemma Q5Pieces(b: Q5, q: nat, h: nat, l: nat)
    requires ValidQ5(b) && q < 4 && h < 2 && l < 32
    ensures Decode5(b)[64 * q + 32 * h + l] == Level5(Nibble(b.qs[32 * q + l], h), Bit(b.qh[l], 2 * q + h))
  {
    hide Level5, Nibble, Bit;
    ElementParts(2 * q + h, l);
    assert (2 * q + h) / 2 == q && (2 * q + h) % 2 == h;
  }

  /** Q5_K: element 64q + 32h + l has its bits 0 to 3 in nibble h of byte 32q + l of qs, and bit 4 in bit 2q + h of
      byte l of qh. */
  lemma Q5Bits(b: Q5, q: nat, h: nat, l: nat, j: nat)
    requires ValidQ5(b) && q < 4 && h < 2 && l < 32 && j < 5
    ensures Bit(Decode5(b)[64 * q + 32 * h + l], j) ==
            if j < 4 then Bit(b.qs[32 * q + l], 4 * h + j) else Bit(b.qh[l], 2 * q + h)
  {
    Q5Pieces(b, q, h, l);
    hide Bit, Nibble, Level5, Decode5;
    BitSmall(b.qh[l], 2 * q + h);
    PiecesSmall(b.qs[32 * q + l], h, 0);
    FifthBit(Nibble(b.qs[32 * q + l], h), Bit(b.qh[l], 2 * q + h), j);
    if j < 4 {
      NibbleBit(b.qs[32 * q + l], h, j);
    }
  }

  lemma FifthBit(n: bv8, b: bv8, j: nat)
    requires n < 16 && b <= 1 && j < 5
    ensures Bit(Level5(n, b), j) == if j < 4 then Bit(n, j) else b
  {
  }

  lemma Q6Pieces(b: Q6, c: nat, s: nat, t: nat, l: nat)
    requires ValidQ6(b) && c < 2 && s < 2 && t < 2 && l < 32
    ensures Decode6(b)[128 * c + 64 * t + 32 * s + l] ==
            Six(Nibble(b.ql[64 * c + 32 * s + l], t), Crumb(b.qh[32 * c + l], s + 2 * t))
  {
    hide Six, Nibble, Crumb, Decode6;
    DecodedAt6(b, c, s, t, l);
  }

  /** Q6_K: element 128c + 64t + 32s + l has its bits 0 to 3 in nibble t of byte 64c + 32s + l of ql, and bits 4 and 5
      in crumb s + 2t of byte 32c + l of qh. */
  lemma Q6Bits(b: Q6, c: nat, s: nat, t: nat, l: nat, j: nat)
    requires ValidQ6(b) && c < 2 && s < 2 && t < 2 && l < 32 && j < 6
    ensures Bit(Decode6(b)[128 * c + 64 * t + 32 * s + l], j) ==
            if j < 4 then Bit(b.ql[64 * c + 32 * s + l], 4 * t + j)
            else Bit(b.qh[32 * c + l], 2 * (s + 2 * t) + (j - 4))
  {
    hide Bit, Nibble, Crumb, Six, Decode6;
    Q6Pieces(b, c, s, t, l);
    JoinedBit(b.ql[64 * c + 32 * s + l], t, b.qh[32 * c + l], s + 2 * t, j);
  }

  /** 0 or 1. */
  function BitValue(x: bv8): int { if x == 0 then 0 else 1 }

  lemma Q3Pieces(b: Q3, h: nat, t: nat, l: nat)
    requires ValidQ3(b) && h < 2 && t < 4 && l < 32
    ensures Decode3(b)[128 * h + 32 * t + l] == Level3(Crumb(b.qs[32 * h + l], t), Bit(b.hmask[l], 4 * h + t))
  {
    hide Crumb, Bit, Level3;
    ElementParts(4 * h + t, l);
    assert (4 * h + t) / 4 == h && (4 * h + t) % 4 == t;
  }

  lemma LevelValue(c: bv8, bit: bv8)
    requires c < 4
    ensures Level3(c, bit) == BitValue(Bit(c, 0)) + 2 * BitValue(Bit(c, 1)) + 4 * BitValue(bit) - 4
  {
    CrumbBits(c);
    hide Bit, CrumbValue;
  }

  /** Q3_K: element 128h + 32t + l has its two low bits in crumb t of byte 32h + l of qs, and 4 more if bit 4h + t of
      byte l of hmask is set; all less 4. */
  lemma Q3Levels(b: Q3, h: nat, t: nat, l: nat)
    requires ValidQ3(b) && h < 2 && t < 4 && l < 32
    ensures var q := b.qs[32 * h + l];
            Decode3(b)[128 * h + 32 * t + l] ==
              BitValue(Bit(q, 2 * t)) + 2 * BitValue(Bit(q, 2 * t + 1)) + 4 * BitValue(Bit(b.hmask[l], 4 * h + t)) - 4
  {
    hide Bit, Crumb, BitValue, Level3, Decode3;
    Q3Pieces(b, h, t, l);
    var q := b.qs[32 * h + l];
    CrumbBit(q, t, 0);
    CrumbBit(q, t, 1);
    PiecesSmall(q, 0, t);
    LevelValue(Crumb(q, t), Bit(b.hmask[l], 4 * h + t));
  }

  lemma CrumbBits(c: bv8)
    requires c < 4
    ensures CrumbValue(c) == BitValue(Bit(c, 0)) + 2 * BitValue(Bit(c, 1))
  {
  }

  /** Q3_K scales: a nibble of one of the first eight bytes and a crumb of one of the last four. */
  lemma Scale3Bits(s: seq<bv8>, i: nat, j: nat)
    requires |s| == 12 && i < 16 && j < 6
    ensures Bit(Scale3(s, i), j) ==
            if j < 4 then Bit(s[i % 8], 4 * (i / 8) + j) else Bit(s[8 + i % 4], 2 * (i / 4) + (j - 4))
  {
    hide Bit, Nibble, Crumb, Six, Scale3;
    ScaleParts(s, i);
    JoinedBit(s[i % 8], i / 8, s[8 + i % 4], i / 4, j);
  }

  /** IQ4_XS scales: a nibble of scales_l and a crumb of scales_h. */
  lemma IQ4Bits(b: IQ4, i: nat, j: nat)
    requires ValidIQ4(b) && i < 8 && j < 6
    ensures Bit(ScaleIQ4(b, i), j) ==
            if j < 4 then Bit(b.low[i / 2], 4 * (i % 2) + j) else Bit(b.high[i / 4], 2 * (i % 4) + (j - 4))
  {
    hide Bit, Nibble, Crumb, Six;
    JoinedBit(b.low[i / 2], i % 2, b.high[i / 4], i % 4, j);
  }

  /** Bit k of a byte is the digit of weight 2^k. */
  lemma BitsOfByte(x: bv8)
    ensures Bit(1, 0) == 1 && Bit(2, 1) == 1 && Bit(4, 2) == 1 && Bit(8, 3) == 1
    ensures Bit(16, 4) == 1 && Bit(32, 5) == 1 && Bit(64, 6) == 1 && Bit(128, 7) == 1
    ensures x == Bit(x, 0) + 2 * Bit(x, 1) + 4 * Bit(x, 2) + 8 * Bit(x, 3)
                 + 16 * Bit(x, 4) + 32 * Bit(x, 5) + 64 * Bit(x, 6) + 128 * Bit(x, 7)
  {
  }
}

/**
 The packed layouts of the K-quant weight blocks: the documented decoders, encoders for them, and the
 proofs that each pair undoes the other, for every block and for every decoded block.
 */
module QuantLayouts {

  // ---------------------------------------------------------------- pieces of a byte

  /** (x >> k) & 1 */
  function Bit(x: bv8, k: nat): bv8
    requires k < 8
  {
    match k
    case 0 => x & 1
    case 1 => (x >> 1) & 1
    case 2 => (x >> 2) & 1
    case 3 => (x >> 3) & 1
    case 4 => (x >> 4) & 1
    case 5 => (x >> 5) & 1
    case 6 => (x >> 6) & 1
    case 7 => (x >> 7) & 1
  }

  /** (x >> 2j) & 3 */
  function Crumb(x: bv8, j: nat): bv8
    requires j < 4
  {
    match j
    case 0 => x & 3
    case 1 => (x >> 2) & 3
    case 2 => (x >> 4) & 3
    case 3 => (x >> 6) & 3
  }

  /** Low nibble for 0, high nibble for 1. */
  function Nibble(x: bv8, h: nat): bv8
    requires h < 2
  {
    if h == 0 then x & 0xF else x >> 4
  }

  function JoinNibbles(lo: bv8, hi: bv8): bv8 { (lo & 0xF) | (hi << 4) }

  function JoinCrumbs(a: bv8, b: bv8, c: bv8, d: bv8): bv8 {
    (a & 3) | ((b & 3) << 2) | ((c & 3) << 4) | (d << 6)
  }

  /** Bit k of the result is the low bit of f(k). */
  function JoinBits(f: nat -> bv8): bv8 {
    (f(0) & 1) | ((f(1) & 1) << 1) | ((f(2) & 1) << 2) | ((f(3) & 1) << 3)
    | ((f(4) & 1) << 4) | ((f(5) & 1) << 5) | ((f(6) & 1) << 6) | ((f(7) & 1) << 7)
  }

  lemma BitOfJoin(f: nat -> bv8, k: nat)
    requires k < 8
    ensures Bit(JoinBits(f), k) == f(k) & 1
  {
    JoinedBits(f(0) & 1, f(1) & 1, f(2) & 1, f(3) & 1, f(4) & 1, f(5) & 1, f(6) & 1, f(7) & 1);
  }

  lemma JoinedBits(a: bv8, b: bv8, c: bv8, d: bv8, e: bv8, f: bv8, g: bv8, h: bv8)
    requires a <= 1 && b <= 1 && c <= 1 && d <= 1 && e <= 1 && f <= 1 && g <= 1 && h <= 1
    ensures var x := a | (b << 1) | (c << 2) | (d << 3) | (e << 4) | (f << 5) | (g << 6) | (h << 7);
            && Bit(x, 0) == a && Bit(x, 1) == b && Bit(x, 2) == c && Bit(x, 3) == d
            && Bit(x, 4) == e && Bit(x, 5) == f && Bit(x, 6) == g && Bit(x, 7) == h
  {
  }

  lemma JoinOfBits(x: bv8, f: nat -> bv8)
    requires forall k: nat :: k < 8 ==> f(k) & 1 == Bit(x, k)
    ensures JoinBits(f) == x
  {
    assert f(0) & 1 == Bit(x, 0) && f(1) & 1 == Bit(x, 1) && f(2) & 1 == Bit(x, 2) && f(3) & 1 == Bit(x, 3);
    assert f(4) & 1 == Bit(x, 4) && f(5) & 1 == Bit(x, 5) && f(6) & 1 == Bit(x, 6) && f(7) & 1 == Bit(x, 7);
    BitsMakeByte(x);
  }

  lemma BitsMakeByte(x: bv8)
    ensures x == (x & 1) | (((x >> 1) & 1) << 1) | (((x >> 2) & 1) << 2) | (((x >> 3) & 1) << 3)
                 | (((x >> 4) & 1) << 4) | (((x >> 5) & 1) << 5) | (((x >> 6) & 1) << 6) | (((x >> 7) & 1) << 7)
  {
  }

  lemma NibbleOfJoin(lo: bv8, hi: bv8, h: nat)
    requires lo < 16 && hi < 16 && h < 2
    ensures Nibble(JoinNibbles(lo, hi), h) == if h == 0 then lo else hi
  {
  }

  lemma JoinOfNibbles(x: bv8)
    ensures JoinNibbles(Nibble(x, 0), Nibble(x, 1)) == x && Nibble(x, 0) < 16 && Nibble(x, 1) < 16
  {
  }

  lemma CrumbOfJoin(a: bv8, b: bv8, c: bv8, d: bv8, j: nat)
    requires a < 4 && b < 4 && c < 4 && d < 4 && j < 4
    ensures Crumb(JoinCrumbs(a, b, c, d), j) == if j == 0 then a else if j == 1 then b else if j == 2 then c else d
  {
  }

  lemma JoinOfCrumbs(x: bv8)
    ensures JoinCrumbs(Crumb(x, 0), Crumb(x, 1), Crumb(x, 2), Crumb(x, 3)) == x
    ensures forall j: nat :: j < 4 ==> Crumb(x, j) < 4
  {
  }

  // ---------------------------------------------------------------- Q4_K and Q5_K: twelve scale bytes

  datatype ScaleMin = ScaleMin(sc: bv8, mn: bv8)

  /** The 6-bit scale and minimum of group `g`. */
  function GetScaleMin(s: seq<bv8>, g: nat): ScaleMin
    requires |s| == 12 && g < 8
  {
    if g < 4 then ScaleMin(s[g] & 63, s[g + 4] & 63)
    else ScaleMin((s[g + 4] & 0xF) | ((s[g - 4] >> 6) << 4), (s[g + 4] >> 4) | ((s[g] >> 6) << 4))
  }

  ghost predicate SixBit(v: seq<ScaleMin>) {
    |v| == 8 && forall g: nat :: g < 8 ==> v[g].sc < 64 && v[g].mn < 64
  }

  function DecodeScales(s: seq<bv8>): seq<ScaleMin>
    requires |s| == 12
  {
    seq(8, g requires 0 <= g < 8 => GetScaleMin(s, g))
  }

  function ScaleByte(v: seq<ScaleMin>, b: nat): bv8
    requires |v| == 8 && b < 12
  {
    if b < 4 then v[b].sc | ((v[b + 4].sc >> 4) << 6)
    else if b < 8 then v[b - 4].mn | ((v[b].mn >> 4) << 6)
    else (v[b - 4].sc & 0xF) | (v[b - 4].mn << 4)
  }

  function EncodeScales(v: seq<ScaleMin>): seq<bv8>
    requires |v| == 8
  {
    seq(12, b requires 0 <= b < 12 => ScaleByte(v, b))
  }

  lemma SixBitParts(a: bv8, b: bv8, c: bv8)
    requires a < 64 && b < 64 && c < 64
    ensures (a | ((b >> 4) << 6)) & 63 == a
    ensures (((b & 0xF) | (c << 4)) & 0xF) | (((a | ((b >> 4) << 6)) >> 6) << 4) == b
    ensures (((c & 0xF) | (b << 4)) >> 4) | (((a | ((b >> 4) << 6)) >> 6) << 4) == b
  {
  }

  lemma ByteParts(x: bv8, y: bv8, z: bv8)
    ensures (x & 63) | ((((y & 0xF) | ((x >> 6) << 4)) >> 4) << 6) == x
    ensures (x & 63) | ((((y >> 4) | ((x >> 6) << 4)) >> 4) << 6) == x
    ensures (((y & 0xF) | ((x >> 6) << 4)) & 0xF) | (((y >> 4) | ((z >> 6) << 4)) << 4) == y
    ensures x & 63 < 64 && (y & 0xF) | ((x >> 6) << 4) < 64 && (y >> 4) | ((x >> 6) << 4) < 64
  {
  }

  /** Twelve bytes and eight pairs of 6-bit numbers are the same thing. */
  lemma ScalesRoundTrip(v: seq<ScaleMin>, s: seq<bv8>)
    requires SixBit(v) && |s| == 12
    ensures DecodeScales(EncodeScales(v)) == v
    ensures SixBit(DecodeScales(s)) && EncodeScales(DecodeScales(s)) == s
  {
    forall g: nat | g < 8 ensures GetScaleMin(EncodeScales(v), g) == v[g] {
      var g' := if g < 4 then g else g - 4;
      SixBitParts(v[g'].sc, v[g' + 4].sc, v[g' + 4].mn);
      SixBitParts(v[g'].mn, v[g' + 4].mn, v[g' + 4].sc);
    }
    forall b: nat | b < 12 ensures ScaleByte(DecodeScales(s), b) == s[b] {
      var b' := b % 4;
      ByteParts(s[b'], s[b' + 8], s[b' + 4]);
      ByteParts(s[b' + 4], s[b' + 8], s[b']);
      assert b == b' || b == b' + 4 || b == b' + 8;
    }
  }

  // ---------------------------------------------------------------- Q5_K: 256 five-bit levels

  /** Element 32k + l of a block; k is 2 * super + hi. */
  function Element(k: nat, l: nat): nat { 32 * k + l }

  lemma ElementParts(k: nat, l: nat)
    requires k < 8 && l < 32
    ensures Element(k, l) < 256 && Element(k, l) / 32 == k && Element(k, l) % 32 == l
  {
  }

  lemma ElementOf(i: nat)
    requires i < 256
    ensures i / 32 < 8 && i % 32 < 32 && Element(i / 32, i % 32) == i
  {
  }

  datatype Q5 = Q5(qh: seq<bv8>, qs: seq<bv8>)

  ghost predicate ValidQ5(b: Q5) { |b.qh| == 32 && |b.qs| == 128 }

  /** A nibble, and 16 more when the bit is set. */
  function Level5(nibble: bv8, bit: bv8): bv8 {
    nibble + if bit != 0 then 16 else 0
  }

  /** Element 32k + l takes a nibble of byte l of quarter k / 2 of qs, and bit k of byte l of qh. */
  function Level5At(b: Q5, k: nat, l: nat): bv8
    requires ValidQ5(b) && k < 8 && l < 32
  {
    Level5(Nibble(b.qs[Element(k / 2, l)], k % 2), Bit(b.qh[l], k))
  }

  function Decode5(b: Q5): seq<bv8>
    requires ValidQ5(b)
  {
    seq(256, i requires 0 <= i < 256 => Level5At(b, i / 32, i % 32))
  }

  function FifthBits(v: seq<bv8>, l: nat): nat -> bv8 {
    (k: nat) => if Element(k, l) < |v| then Nibble(v[Element(k, l)], 1) else 0
  }

  function QsByte5(v: seq<bv8>, q: nat, l: nat): bv8
    requires |v| == 256 && q < 4 && l < 32
  {
    JoinNibbles(Nibble(v[Element(2 * q, l)], 0), Nibble(v[Element(2 * q + 1, l)], 0))
  }

  function Encode5(v: seq<bv8>): (b: Q5)
    requires |v| == 256
    ensures ValidQ5(b)
  {
    Q5(seq(32, l requires 0 <= l < 32 => JoinBits(FifthBits(v, l))),
       seq(128, p requires 0 <= p < 128 => QsByte5(v, p / 32, p % 32)))
  }

  lemma FiveBits(x: bv8, n: bv8, b: bv8)
    requires n < 16 && b <= 1
    ensures x < 32 ==> Level5(Nibble(x, 0), Nibble(x, 1) & 1) == x
    ensures Nibble(Level5(n, b), 0) == n && Nibble(Level5(n, b), 1) & 1 == b && Level5(n, b) < 32
  {
  }

  lemma BitSmall(x: bv8, k: nat)
    requires k < 8
    ensures Bit(x, k) <= 1
  {
  }

  lemma Encoded5(v: seq<bv8>, k: nat, l: nat)
    requires |v| == 256 && k < 8 && l < 32 && v[Element(k, l)] < 32
    ensures Level5At(Encode5(v), k, l) == v[Element(k, l)]
  {
    hide JoinBits, JoinNibbles, Nibble, Bit, Level5, Element;
    var q, b := k / 2, Encode5(v);
    ElementParts(q, l);
    assert q < 4 && Element(q, l) < 128 by { QuarterIndex(q, l); }
    ElementParts(2 * q, l);
    ElementParts(2 * q + 1, l);
    assert b.qs[Element(q, l)] == QsByte5(v, q, l);
    JoinOfNibbles(v[Element(2 * q, l)]);
    JoinOfNibbles(v[Element(2 * q + 1, l)]);
    NibbleOfJoin(Nibble(v[Element(2 * q, l)], 0), Nibble(v[Element(2 * q + 1, l)], 0), k % 2);
    assert k == 2 * q + k % 2;
    BitOfJoin(FifthBits(v, l), k);
    FiveBits(v[Element(k, l)], 0, 0);
  }

  lemma QuarterIndex(q: nat, l: nat)
    requires q < 4 && l < 32
    ensures Element(q, l) < 128
  {
  }

  /** The two parts of a decoded level. */
  lemma Parts5(b: Q5, k: nat, l: nat)
    requires ValidQ5(b) && k < 8 && l < 32 && Element(k, l) < 256
    ensures var x := Decode5(b)[Element(k, l)];
            x < 32 && Nibble(x, 0) == Nibble(b.qs[Element(k / 2, l)], k % 2) && Nibble(x, 1) & 1 == Bit(b.qh[l], k)
  {
    hide JoinBits, JoinNibbles, Nibble, Bit, Level5, Element;
    ElementParts(k, l);
    QuarterIndex(k / 2, l);
    JoinOfNibbles(b.qs[Element(k / 2, l)]);
    BitSmall(b.qh[l], k);
    FiveBits(0, Nibble(b.qs[Element(k / 2, l)], k % 2), Bit(b.qh[l], k));
  }

  lemma Decoded5(b: Q5)
    requires ValidQ5(b)
    ensures Encode5(Decode5(b)) == b
  {
    hide JoinBits, JoinNibbles, Nibble, Bit, Level5, Element;
    var v, e := Decode5(b), Encode5(Decode5(b));
    forall p: nat | p < 128 ensures e.qs[p] == b.qs[p] {
      var q, l := p / 32, p % 32;
      ElementOf(p);
      ElementParts(2 * q, l);
      ElementParts(2 * q + 1, l);
      Parts5(b, 2 * q, l);
      Parts5(b, 2 * q + 1, l);
      JoinOfNibbles(b.qs[p]);
      assert 2 * q / 2 == q && 2 * q % 2 == 0 && (2 * q + 1) / 2 == q && (2 * q + 1) % 2 == 1;
    }
    forall l: nat | l < 32 ensures e.qh[l] == b.qh[l] {
      forall k: nat | k < 8 ensures FifthBits(v, l)(k) & 1 == Bit(b.qh[l], k) {
        ElementParts(k, l);
        Parts5(b, k, l);
      }
      JoinOfBits(b.qh[l], FifthBits(v, l));
    }
  }

  /** qs with qh and 256 five-bit levels are the same thing. */
  lemma Q5RoundTrip(v: seq<bv8>, b: Q5)
    requires |v| == 256 && (forall i: nat :: i < 256 ==> v[i] < 32) && ValidQ5(b)
    ensures Decode5(Encode5(v)) == v
    ensures Encode5(Decode5(b)) == b && forall i: nat :: i < 256 ==> Decode5(b)[i] < 32
  {
    hide Level5At, Encode5, Element;
    forall i: nat | i < 256 ensures Decode5(Encode5(v))[i] == v[i] && Decode5(b)[i] < 32 {
      ElementOf(i);
      Encoded5(v, i / 32, i % 32);
      Parts5(b, i / 32, i % 32);
    }
    Decoded5(b);
  }

  // ---------------------------------------------------------------- six-bit numbers: nibble and crumb

  function Six(nibble: bv8, crumb: bv8): bv8 { nibble | (crumb << 4) }

  lemma SixBits(x: bv8, n: bv8, c: bv8)
    requires n < 16 && c < 4
    ensures x < 64 ==> Six(Nibble(x, 0), Nibble(x, 1)) == x && Nibble(x, 0) < 16 && Nibble(x, 1) < 4
    ensures Nibble(Six(n, c), 0) == n && Nibble(Six(n, c), 1) == c && Six(n, c) < 64
  {
  }

  // ---------------------------------------------------------------- Q6_K: 256 six-bit levels

  datatype Q6 = Q6(ql: seq<bv8>, qh: seq<bv8>)

  ghost predicate ValidQ6(b: Q6) { |b.ql| == 128 && |b.qh| == 64 }

  /** Element l of sub-block s + 2t of chunk c, before the offset of 32. */
  function Level6(b: Q6, c: nat, s: nat, t: nat, l: nat): bv8
    requires ValidQ6(b) && c < 2 && s < 2 && t < 2 && l < 32
  {
    Six(Nibble(b.ql[Element(2 * c + s, l)], t), Crumb(b.qh[Element(c, l)], s + 2 * t))
  }

  function Level6At(b: Q6, k: nat, l: nat): bv8
    requires ValidQ6(b) && k < 8 && l < 32
  {
    Level6(b, k / 4, k % 2, k % 4 / 2, l)
  }

  function Decode6(b: Q6): (v: seq<bv8>)
    requires ValidQ6(b)
    ensures |v| == 256
  {
    seq(256, i requires 0 <= i < 256 => Level6At(b, i / 32, i % 32))
  }

  function At(v: seq<bv8>, k: nat, l: nat): bv8
    requires |v| == 256 && k < 8 && l < 32
  {
    v[Element(k, l)]
  }

  /** Byte l of quarter 2c + s of ql holds two sub-blocks of chunk c that are 2 apart. */
  function QlByte6(v: seq<bv8>, c: nat, s: nat, l: nat): bv8
    requires |v| == 256 && c < 2 && s < 2 && l < 32
  {
    JoinNibbles(Nibble(At(v, 4 * c + s, l), 0), Nibble(At(v, 4 * c + s + 2, l), 0))
  }

  function QhByte6(v: seq<bv8>, c: nat, l: nat): bv8
    requires |v| == 256 && c < 2 && l < 32
  {
    JoinCrumbs(Nibble(At(v, 4 * c, l), 1), Nibble(At(v, 4 * c + 1, l), 1),
               Nibble(At(v, 4 * c + 2, l), 1), Nibble(At(v, 4 * c + 3, l), 1))
  }

  function Encode6(v: seq<bv8>): (b: Q6)
    requires |v| == 256
    ensures ValidQ6(b)
  {
    Q6(seq(128, p requires 0 <= p < 128 => QlByte6(v, p / 32 / 2, p / 32 % 2, p % 32)),
       seq(64, p requires 0 <= p < 64 => QhByte6(v, p / 32, p % 32)))
  }

  ghost predicate AllBelow(v: seq<bv8>, bound: bv8) {
    forall i: nat :: i < |v| ==> v[i] < bound
  }

  lemma AtBelow(v: seq<bv8>, k: nat, l: nat)
    requires |v| == 256 && k < 8 && l < 32 && AllBelow(v, 64)
    ensures At(v, k, l) < 64 && Nibble(At(v, k, l), 0) < 16 && Nibble(At(v, k, l), 1) < 4
    ensures Six(Nibble(At(v, k, l), 0), Nibble(At(v, k, l), 1)) == At(v, k, l)
  {
    hide Nibble, Six;
    ElementParts(k, l);
    SixBits(v[Element(k, l)], 0, 0);
  }

  /** k = 4c + s + 2t: chunk c, low bit s and high bit t of the sub-block. */
  lemma SubBlock(c: nat, s: nat, t: nat)
    requires c < 2 && s < 2 && t < 2
    ensures var k := 4 * c + s + 2 * t; k < 8 && k / 4 == c && k % 4 == s + 2 * t && k % 4 / 2 == t && k % 2 == s
    ensures var q := 2 * c + s; q < 4 && q / 2 == c && q % 2 == s
  {
  }

  lemma NibblePart6(v: seq<bv8>, c: nat, s: nat, t: nat, l: nat)
    requires |v| == 256 && c < 2 && s < 2 && t < 2 && l < 32 && AllBelow(v, 64)
    ensures Nibble(QlByte6(v, c, s, l), t) == Nibble(At(v, 4 * c + s + 2 * t, l), 0)
  {
    hide JoinNibbles, Nibble, Six, Element, At, AllBelow;
    AtBelow(v, 4 * c + s, l);
    AtBelow(v, 4 * c + s + 2, l);
    NibbleOfJoin(Nibble(At(v, 4 * c + s, l), 0), Nibble(At(v, 4 * c + s + 2, l), 0), t);
    if t == 1 {
      assert 4 * c + s + 2 * t == 4 * c + s + 2;
    }
  }

  lemma CrumbPart6(v: seq<bv8>, c: nat, j: nat, l: nat)
    requires |v| == 256 && c < 2 && j < 4 && l < 32 && AllBelow(v, 64)
    ensures Crumb(QhByte6(v, c, l), j) == Nibble(At(v, 4 * c + j, l), 1)
  {
    hide JoinCrumbs, Nibble, Crumb, Six, Element, At, AllBelow;
    AtBelow(v, 4 * c, l);
    AtBelow(v, 4 * c + 1, l);
    AtBelow(v, 4 * c + 2, l);
    AtBelow(v, 4 * c + 3, l);
    CrumbOfJoin(Nibble(At(v, 4 * c, l), 1), Nibble(At(v, 4 * c + 1, l), 1),
                Nibble(At(v, 4 * c + 2, l), 1), Nibble(At(v, 4 * c + 3, l), 1), j);
  }

  lemma Encoded6(v: seq<bv8>, c: nat, s: nat, t: nat, l: nat)
    requires |v| == 256 && c < 2 && s < 2 && t < 2 && l < 32 && AllBelow(v, 64)
    ensures Level6(Encode6(v), c, s, t, l) == At(v, 4 * c + s + 2 * t, l)
  {
    hide QlByte6, QhByte6, Nibble, Crumb, Six, Element, At, AllBelow;
    EncodedBytes6(v, c, s, l);
    hide Encode6;
    NibblePart6(v, c, s, t, l);
    CrumbPart6(v, c, s + 2 * t, l);
    AtBelow(v, 4 * c + s + 2 * t, l);
  }

  lemma EncodedBytes6(v: seq<bv8>, c: nat, s: nat, l: nat)
    requires |v| == 256 && c < 2 && s < 2 && l < 32
    ensures Element(2 * c + s, l) < 128 && Element(c, l) < 64
    ensures Encode6(v).ql[Element(2 * c + s, l)] == QlByte6(v, c, s, l)
    ensures Encode6(v).qh[Element(c, l)] == QhByte6(v, c, l)
  {
    hide QlByte6, QhByte6, Element;
    SubBlock(c, s, 0);
    ElementParts(2 * c + s, l);
    ElementParts(c, l);
    QuarterIndex(2 * c + s, l);
    HalfIndex(c, l);
  }

  lemma HalfIndex(c: nat, l: nat)
    requires c < 2 && l < 32
    ensures Element(c, l) < 64
  {
  }

  lemma DecodedAt6(b: Q6, c: nat, s: nat, t: nat, l: nat)
    requires ValidQ6(b) && c < 2 && s < 2 && t < 2 && l < 32
    ensures At(Decode6(b), 4 * c + s + 2 * t, l) == Level6(b, c, s, t, l)
  {
    hide Level6;
    var k := 4 * c + s + 2 * t;
    SubBlock(c, s, t);
    ElementParts(k, l);
  }

  lemma LevelParts6(b: Q6, c: nat, s: nat, t: nat, l: nat)
    requires ValidQ6(b) && c < 2 && s < 2 && t < 2 && l < 32
    requires Element(2 * c + s, l) < 128 && Element(c, l) < 64
    ensures var x := Level6(b, c, s, t, l);
            && x < 64
            && Nibble(x, 0) == Nibble(b.ql[Element(2 * c + s, l)], t)
            && Nibble(x, 1) == Crumb(b.qh[Element(c, l)], s + 2 * t)
  {
    hide Nibble, Crumb, Six, Element;
    JoinOfNibbles(b.ql[Element(2 * c + s, l)]);
    JoinOfCrumbs(b.qh[Element(c, l)]);
    SixBits(0, Nibble(b.ql[Element(2 * c + s, l)], t), Crumb(b.qh[Element(c, l)], s + 2 * t));
  }

  lemma Parts6(b: Q6, c: nat, s: nat, t: nat, l: nat)
    requires ValidQ6(b) && c < 2 && s < 2 && t < 2 && l < 32
    ensures Element(2 * c + s, l) < 128 && Element(c, l) < 64
    ensures var x := At(Decode6(b), 4 * c + s + 2 * t, l);
            && x < 64
            && Nibble(x, 0) == Nibble(b.ql[Element(2 * c + s, l)], t)
            && Nibble(x, 1) == Crumb(b.qh[Element(c, l)], s + 2 * t)
  {
    hide Nibble, Crumb, Level6, Element, At, Decode6;
    QuarterIndex(2 * c + s, l);
    HalfIndex(c, l);
    DecodedAt6(b, c, s, t, l);
    LevelParts6(b, c, s, t, l);
  }

  lemma Decoded6(b: Q6)
    requires ValidQ6(b)
    ensures Encode6(Decode6(b)) == b
  {
    hide Level6At, Element, At, QlByte6, QhByte6, Decode6;
    var v := Decode6(b);
    forall p: nat | p < 128 ensures QlByte6(v, p / 32 / 2, p / 32 % 2, p % 32) == b.ql[p] {
      ElementOf(p);
      DecodedQl(b, p / 32 / 2, p / 32 % 2, p % 32);
      assert 2 * (p / 32 / 2) + p / 32 % 2 == p / 32;
    }
    forall p: nat | p < 64 ensures QhByte6(v, p / 32, p % 32) == b.qh[p] {
      ElementOf(p);
      DecodedQh(b, p / 32, p % 32);
    }
  }

  lemma DecodedQl(b: Q6, c: nat, s: nat, l: nat)
    requires ValidQ6(b) && c < 2 && s < 2 && l < 32
    ensures Element(2 * c + s, l) < 128 && QlByte6(Decode6(b), c, s, l) == b.ql[Element(2 * c + s, l)]
  {
    hide Element, At, JoinNibbles, Nibble, Crumb, Decode6;
    Parts6(b, c, s, 0, l);
    Parts6(b, c, s, 1, l);
    JoinOfNibbles(b.ql[Element(2 * c + s, l)]);
  }

  lemma DecodedQh(b: Q6, c: nat, l: nat)
    requires ValidQ6(b) && c < 2 && l < 32
    ensures Element(c, l) < 64 && QhByte6(Decode6(b), c, l) == b.qh[Element(c, l)]
  {
    hide Element, At, JoinCrumbs, Nibble, Crumb, Decode6;
    Parts6(b, c, 0, 0, l);
    Parts6(b, c, 1, 0, l);
    Parts6(b, c, 0, 1, l);
    Parts6(b, c, 1, 1, l);
    JoinOfCrumbs(b.qh[Element(c, l)]);
  }

  /** ql with qh and 256 six-bit levels are the same thing. */
  lemma Q6RoundTrip(v: seq<bv8>, b: Q6)
    requires |v| == 256 && AllBelow(v, 64) && ValidQ6(b)
    ensures Decode6(Encode6(v)) == v
    ensures Encode6(Decode6(b)) == b && AllBelow(Decode6(b), 64)
  {
    hide Level6, Encode6, Element, Nibble, Crumb, AllBelow;
    forall i: nat | i < 256 ensures Decode6(Encode6(v))[i] == v[i] && Decode6(b)[i] < 64 {
      var k, l := i / 32, i % 32;
      var c, s, t := k / 4, k % 2, k % 4 / 2;
      ElementOf(i);
      SubBlock(c, s, t);
      assert k == 4 * c + s + 2 * t;
      Encoded6(v, c, s, t, l);
      Parts6(b, c, s, t, l);
    }
    BelowAll(Decode6(b), 64);
    Decoded6(b);
  }

  lemma BelowAll(v: seq<bv8>, bound: bv8)
    requires forall i: nat :: i < |v| ==> v[i] < bound
    ensures AllBelow(v, bound)
  {
  }

  // ---------------------------------------------------------------- Q3_K: 256 levels from -4 to 3

  datatype Q3 = Q3(hmask: seq<bv8>, qs: seq<bv8>)

  ghost predicate ValidQ3(b: Q3) { |b.hmask| == 32 && |b.qs| == 64 }

  function CrumbValue(c: bv8): int {
    if c == 0 then 0 else if c == 1 then 1 else if c == 2 then 2 else 3
  }

  function CrumbFor(u: int): bv8 {
    if u == 0 then 0 else if u == 1 then 1 else if u == 2 then 2 else 3
  }

  /** A crumb, less 4 unless the mask bit is set. */
  function Level3(crumb: bv8, bit: bv8): int {
    CrumbValue(crumb) - if bit != 0 then 0 else 4
  }

  /** Element 32k + l, half k / 4 and position k % 4. */
  function Level3At(b: Q3, k: nat, l: nat): int
    requires ValidQ3(b) && k < 8 && l < 32
  {
    Level3(Crumb(b.qs[Element(k / 4, l)], k % 4), Bit(b.hmask[l], k))
  }

  function Decode3(b: Q3): seq<int>
    requires ValidQ3(b)
  {
    seq(256, i requires 0 <= i < 256 => Level3At(b, i / 32, i % 32))
  }

  function LowPart(x: int): bv8 { CrumbFor(if x >= 0 then x else x + 4) }

  function SignPart(x: int): bv8 { if x >= 0 then 1 else 0 }

  function SignBits(v: seq<int>, l: nat): nat -> bv8 {
    (k: nat) => if Element(k, l) < |v| then SignPart(v[Element(k, l)]) else 0
  }

  function QsByte3(v: seq<int>, h: nat, l: nat): bv8
    requires |v| == 256 && h < 2 && l < 32
  {
    JoinCrumbs(LowPart(v[Element(4 * h, l)]), LowPart(v[Element(4 * h + 1, l)]),
               LowPart(v[Element(4 * h + 2, l)]), LowPart(v[Element(4 * h + 3, l)]))
  }

  function Encode3(v: seq<int>): (b: Q3)
    requires |v| == 256
    ensures ValidQ3(b)
  {
    Q3(seq(32, l requires 0 <= l < 32 => JoinBits(SignBits(v, l))),
       seq(64, p requires 0 <= p < 64 => QsByte3(v, p / 32, p % 32)))
  }

  lemma SignedParts(x: int, c: bv8, b: bv8)
    requires c < 4 && b <= 1
    ensures -4 <= x < 4 ==> Level3(LowPart(x), SignPart(x)) == x
    ensures LowPart(x) < 4 && SignPart(x) & 1 == SignPart(x)
    ensures LowPart(Level3(c, b)) == c && SignPart(Level3(c, b)) == b && -4 <= Level3(c, b) < 4
  {
  }

  lemma Encoded3(v: seq<int>, k: nat, l: nat)
    requires |v| == 256 && k < 8 && l < 32 && -4 <= v[Element(k, l)] < 4
    ensures Level3At(Encode3(v), k, l) == v[Element(k, l)]
  {
    hide JoinBits, JoinCrumbs, Crumb, Bit, Level3, LowPart, SignPart, Element;
    var b, h := Encode3(v), k / 4;
    ElementParts(h, l);
    HalfIndex(h, l);
    ElementParts(4 * h, l);
    ElementParts(4 * h + 1, l);
    ElementParts(4 * h + 2, l);
    ElementParts(4 * h + 3, l);
    ElementParts(k, l);
    assert b.qs[Element(h, l)] == QsByte3(v, h, l);
    SignedParts(v[Element(4 * h, l)], 0, 0);
    SignedParts(v[Element(4 * h + 1, l)], 0, 0);
    SignedParts(v[Element(4 * h + 2, l)], 0, 0);
    SignedParts(v[Element(4 * h + 3, l)], 0, 0);
    CrumbOfJoin(LowPart(v[Element(4 * h, l)]), LowPart(v[Element(4 * h + 1, l)]),
                LowPart(v[Element(4 * h + 2, l)]), LowPart(v[Element(4 * h + 3, l)]), k % 4);
    BitOfJoin(SignBits(v, l), k);
    assert k == 4 * h || k == 4 * h + 1 || k == 4 * h + 2 || k == 4 * h + 3;
  }

  lemma Parts3(b: Q3, k: nat, l: nat)
    requires ValidQ3(b) && k < 8 && l < 32 && Element(k, l) < 256 && Element(k / 4, l) < 64
    ensures var x := Decode3(b)[Element(k, l)];
            && -4 <= x < 4
            && LowPart(x) == Crumb(b.qs[Element(k / 4, l)], k % 4) && SignPart(x) == Bit(b.hmask[l], k)
  {
    hide Crumb, Bit, Level3, LowPart, SignPart, Element;
    ElementParts(k, l);
    JoinOfCrumbs(b.qs[Element(k / 4, l)]);
    BitSmall(b.hmask[l], k);
    SignedParts(0, Crumb(b.qs[Element(k / 4, l)], k % 4), Bit(b.hmask[l], k));
  }

  lemma LowParts3(b: Q3, h: nat, j: nat, l: nat)
    requires ValidQ3(b) && h < 2 && j < 4 && l < 32
    ensures Element(4 * h + j, l) < 256 && Element(h, l) < 64
    ensures LowPart(Decode3(b)[Element(4 * h + j, l)]) == Crumb(b.qs[Element(h, l)], j)
  {
    hide Crumb, Bit, LowPart, SignPart, Element, Decode3;
    ElementParts(4 * h + j, l);
    HalfIndex(h, l);
    assert (4 * h + j) / 4 == h && (4 * h + j) % 4 == j;
    Parts3(b, 4 * h + j, l);
  }

  lemma Decoded3(b: Q3)
    requires ValidQ3(b)
    ensures Encode3(Decode3(b)) == b
  {
    hide JoinBits, JoinCrumbs, Crumb, Bit, Level3At, LowPart, SignPart, Element;
    var v, e := Decode3(b), Encode3(Decode3(b));
    forall p: nat | p < 64 ensures e.qs[p] == b.qs[p] {
      var h, l := p / 32, p % 32;
      ElementOf(p);
      LowParts3(b, h, 0, l);
      LowParts3(b, h, 1, l);
      LowParts3(b, h, 2, l);
      LowParts3(b, h, 3, l);
      JoinOfCrumbs(b.qs[p]);
    }
    forall l: nat | l < 32 ensures e.hmask[l] == b.hmask[l] {
      forall k: nat | k < 8 ensures SignBits(v, l)(k) & 1 == Bit(b.hmask[l], k) {
        ElementParts(k, l);
        HalfIndex(k / 4, l);
        Parts3(b, k, l);
        BitSmall(b.hmask[l], k);
        SignedParts(v[Element(k, l)], 0, 0);
      }
      JoinOfBits(b.hmask[l], SignBits(v, l));
    }
  }

  /** hmask with qs and 256 levels from -4 to 3 are the same thing. */
  lemma Q3RoundTrip(v: seq<int>, b: Q3)
    requires |v| == 256 && (forall i: nat :: i < 256 ==> -4 <= v[i] < 4) && ValidQ3(b)
    ensures Decode3(Encode3(v)) == v
    ensures Encode3(Decode3(b)) == b && forall i: nat :: i < 256 ==> -4 <= Decode3(b)[i] < 4
  {
    hide Level3At, Encode3, Element;
    forall i: nat | i < 256 ensures Decode3(Encode3(v))[i] == v[i] && -4 <= Decode3(b)[i] < 4 {
      ElementOf(i);
      HalfIndex(i / 32 / 4, i % 32);
      Encoded3(v, i / 32, i % 32);
      Parts3(b, i / 32, i % 32);
    }
    Decoded3(b);
  }

  // ---------------------------------------------------------------- Q3_K scales: sixteen six-bit numbers

  /** Scale 4t + r: a nibble of one of the first eight bytes, and crumb t of byte 8 + r. */
  function Scale3(s: seq<bv8>, i: nat): bv8
    requires |s| == 12 && i < 16
  {
    if i < 4 then Six(s[i] & 0xF, s[8 + i] & 3)
    else if i < 8 then Six(s[i] & 0xF, (s[i + 4] >> 2) & 3)
    else if i < 12 then Six(s[i - 8] >> 4, (s[i] >> 4) & 3)
    else Six(s[i - 8] >> 4, (s[i - 4] >> 6) & 3)
  }

  function DecodeScales3(s: seq<bv8>): seq<bv8>
    requires |s| == 12
  {
    seq(16, i requires 0 <= i < 16 => Scale3(s, i))
  }

  function ScaleByte3(v: seq<bv8>, b: nat): bv8
    requires |v| == 16 && b < 12
  {
    if b < 8 then JoinNibbles(Nibble(v[b], 0), Nibble(v[b + 8], 0))
    else JoinCrumbs(Nibble(v[b - 8], 1), Nibble(v[b - 4], 1), Nibble(v[b], 1), Nibble(v[b + 4], 1))
  }

  function EncodeScales3(v: seq<bv8>): seq<bv8>
    requires |v| == 16
  {
    seq(12, b requires 0 <= b < 12 => ScaleByte3(v, b))
  }

  lemma ScaleParts(s: seq<bv8>, i: nat)
    requires |s| == 12 && i < 16
    ensures Scale3(s, i) == Six(Nibble(s[i % 8], i / 8), Crumb(s[8 + i % 4], i / 4))
  {
    hide Six;
    if i < 4 {
      assert i % 8 == i && i / 8 == 0 && i % 4 == i && i / 4 == 0;
    } else if i < 8 {
      assert i % 8 == i && i / 8 == 0 && i % 4 == i - 4 && i / 4 == 1;
    } else if i < 12 {
      assert i % 8 == i - 8 && i / 8 == 1 && i % 4 == i - 8 && i / 4 == 2;
    } else {
      assert i % 8 == i - 8 && i / 8 == 1 && i % 4 == i - 12 && i / 4 == 3;
    }
  }

  lemma EncodedScale3(v: seq<bv8>, i: nat)
    requires |v| == 16 && AllBelow(v, 64) && i < 16
    ensures Scale3(EncodeScales3(v), i) == v[i]
  {
    hide Six, Nibble, Crumb, JoinNibbles, JoinCrumbs, Scale3;
    var e, r, q := EncodeScales3(v), i % 4, i % 8;
    ScaleParts(e, i);
    forall q: nat | q < 16
      ensures Six(Nibble(v[q], 0), Nibble(v[q], 1)) == v[q] && Nibble(v[q], 0) < 16 && Nibble(v[q], 1) < 4
    {
      SixBits(v[q], 0, 0);
    }
    assert e[q] == ScaleByte3(v, q) && e[8 + r] == ScaleByte3(v, 8 + r);
    NibbleOfJoin(Nibble(v[q], 0), Nibble(v[q + 8], 0), i / 8);
    CrumbOfJoin(Nibble(v[r], 1), Nibble(v[r + 4], 1), Nibble(v[r + 8], 1), Nibble(v[r + 12], 1), i / 4);
    assert i == q + 8 * (i / 8) && i == r + 4 * (i / 4);
    assert Nibble(e[q], i / 8) == Nibble(v[i], 0);
    assert Crumb(e[8 + r], i / 4) == Nibble(v[i], 1);
  }

  lemma PartsScale3(s: seq<bv8>, i: nat)
    requires |s| == 12 && i < 16
    ensures var x := Scale3(s, i);
            x < 64 && Nibble(x, 0) == Nibble(s[i % 8], i / 8) && Nibble(x, 1) == Crumb(s[8 + i % 4], i / 4)
  {
    hide Six, Nibble, Crumb, Scale3;
    ScaleParts(s, i);
    JoinOfNibbles(s[i % 8]);
    JoinOfCrumbs(s[8 + i % 4]);
    SixBits(0, Nibble(s[i % 8], i / 8), Crumb(s[8 + i % 4], i / 4));
  }

  lemma DecodedScale3(s: seq<bv8>, b: nat)
    requires |s| == 12 && b < 12
    ensures ScaleByte3(DecodeScales3(s), b) == s[b]
  {
    hide Six, Nibble, Crumb, JoinNibbles, JoinCrumbs, Scale3;
    var w := DecodeScales3(s);
    if b < 8 {
      PartsScale3(s, b);
      PartsScale3(s, b + 8);
      JoinOfNibbles(s[b]);
      assert b % 8 == b && b / 8 == 0 && (b + 8) % 8 == b && (b + 8) / 8 == 1;
      assert Nibble(w[b], 0) == Nibble(s[b], 0) && Nibble(w[b + 8], 0) == Nibble(s[b], 1);
    } else {
      var r := b - 8;
      CrumbScale3(s, r, 0);
      CrumbScale3(s, r, 1);
      CrumbScale3(s, r, 2);
      CrumbScale3(s, r, 3);
      JoinOfCrumbs(s[b]);
    }
  }

  lemma CrumbScale3(s: seq<bv8>, r: nat, t: nat)
    requires |s| == 12 && r < 4 && t < 4
    ensures Nibble(DecodeScales3(s)[r + 4 * t], 1) == Crumb(s[8 + r], t)
  {
    hide Nibble, Crumb, Scale3;
    PartsScale3(s, r + 4 * t);
    assert (r + 4 * t) % 4 == r && (r + 4 * t) / 4 == t;
  }

  /** The twelve bytes and sixteen six-bit scales are the same thing. */
  lemma Scales3RoundTrip(v: seq<bv8>, s: seq<bv8>)
    requires |v| == 16 && AllBelow(v, 64) && |s| == 12
    ensures DecodeScales3(EncodeScales3(v)) == v
    ensures EncodeScales3(DecodeScales3(s)) == s && AllBelow(DecodeScales3(s), 64)
  {
    hide Nibble, Crumb, Scale3, ScaleByte3;
    forall i: nat | i < 16 ensures Scale3(EncodeScales3(v), i) == v[i] && Scale3(s, i) < 64 {
      EncodedScale3(v, i);
      PartsScale3(s, i);
    }
    forall b: nat | b < 12 ensures ScaleByte3(DecodeScales3(s), b) == s[b] {
      DecodedScale3(s, b);
    }
  }

  // ---------------------------------------------------------------- IQ4_XS: eight six-bit scales

  /** scales_h as its two bytes, low byte first. */
  datatype IQ4 = IQ4(low: seq<bv8>, high: seq<bv8>)

  ghost predicate ValidIQ4(b: IQ4) { |b.low| == 4 && |b.high| == 2 }

  /** Scale i: a nibble of scales_l and two bits of scales_h. */
  function ScaleIQ4(b: IQ4, i: nat): bv8
    requires ValidIQ4(b) && i < 8
  {
    Six(Nibble(b.low[i / 2], i % 2), Crumb(b.high[i / 4], i % 4))
  }

  /** The two bits at 2i of the 16-bit word are crumb i % 4 of byte i / 4. */
  lemma WordCrumb(h0: bv8, h1: bv8)
    ensures var w := (h0 as bv16) | ((h1 as bv16) << 8);
            && w & 3 == Crumb(h0, 0) as bv16 && (w >> 2) & 3 == Crumb(h0, 1) as bv16
            && (w >> 4) & 3 == Crumb(h0, 2) as bv16 && (w >> 6) & 3 == Crumb(h0, 3) as bv16
            && (w >> 8) & 3 == Crumb(h1, 0) as bv16 && (w >> 10) & 3 == Crumb(h1, 1) as bv16
            && (w >> 12) & 3 == Crumb(h1, 2) as bv16 && (w >> 14) & 3 == Crumb(h1, 3) as bv16
  {
  }

  function DecodeIQ4(b: IQ4): seq<bv8>
    requires ValidIQ4(b)
  {
    seq(8, i requires 0 <= i < 8 => ScaleIQ4(b, i))
  }

  function LowByteIQ4(v: seq<bv8>, p: nat): bv8
    requires |v| == 8 && p < 4
  {
    JoinNibbles(Nibble(v[2 * p], 0), Nibble(v[2 * p + 1], 0))
  }

  function HighByteIQ4(v: seq<bv8>, p: nat): bv8
    requires |v| == 8 && p < 2
  {
    JoinCrumbs(Nibble(v[4 * p], 1), Nibble(v[4 * p + 1], 1), Nibble(v[4 * p + 2], 1), Nibble(v[4 * p + 3], 1))
  }

  function EncodeIQ4(v: seq<bv8>): (b: IQ4)
    requires |v| == 8
    ensures ValidIQ4(b)
  {
    IQ4(seq(4, p requires 0 <= p < 4 => LowByteIQ4(v, p)), seq(2, p requires 0 <= p < 2 => HighByteIQ4(v, p)))
  }

  lemma EncodedIQ4(v: seq<bv8>, i: nat)
    requires |v| == 8 && AllBelow(v, 64) && i < 8
    ensures ScaleIQ4(EncodeIQ4(v), i) == v[i]
  {
    hide Six, Nibble, Crumb, JoinNibbles, JoinCrumbs;
    forall q: nat | q < 8
      ensures Six(Nibble(v[q], 0), Nibble(v[q], 1)) == v[q] && Nibble(v[q], 0) < 16 && Nibble(v[q], 1) < 4
    {
      SixBits(v[q], 0, 0);
    }
    var p, r, e := i / 2, i / 4, EncodeIQ4(v);
    assert i == 2 * p + i % 2 && i == 4 * r + i % 4;
    assert e.low[p] == LowByteIQ4(v, p) && e.high[r] == HighByteIQ4(v, r);
    NibbleOfJoin(Nibble(v[2 * p], 0), Nibble(v[2 * p + 1], 0), i % 2);
    CrumbOfJoin(Nibble(v[4 * r], 1), Nibble(v[4 * r + 1], 1), Nibble(v[4 * r + 2], 1), Nibble(v[4 * r + 3], 1), i % 4);
    assert Nibble(e.low[p], i % 2) == Nibble(v[i], 0);
    assert Crumb(e.high[r], i % 4) == Nibble(v[i], 1);
  }

  lemma PartsIQ4(b: IQ4, i: nat)
    requires ValidIQ4(b) && i < 8
    ensures var x := ScaleIQ4(b, i);
            x < 64 && Nibble(x, 0) == Nibble(b.low[i / 2], i % 2) && Nibble(x, 1) == Crumb(b.high[i / 4], i % 4)
  {
    hide Six, Nibble, Crumb;
    JoinOfNibbles(b.low[i / 2]);
    JoinOfCrumbs(b.high[i / 4]);
    SixBits(0, Nibble(b.low[i / 2], i % 2), Crumb(b.high[i / 4], i % 4));
  }

  lemma DecodedIQ4(b: IQ4)
    requires ValidIQ4(b)
    ensures EncodeIQ4(DecodeIQ4(b)) == b
  {
    hide Six, Nibble, Crumb, JoinNibbles, JoinCrumbs, ScaleIQ4;
    var w := DecodeIQ4(b);
    forall p: nat | p < 4 ensures LowByteIQ4(w, p) == b.low[p] {
      PartsIQ4(b, 2 * p);
      PartsIQ4(b, 2 * p + 1);
      JoinOfNibbles(b.low[p]);
      assert 2 * p / 2 == p && 2 * p % 2 == 0 && (2 * p + 1) / 2 == p && (2 * p + 1) % 2 == 1;
    }
    forall p: nat | p < 2 ensures HighByteIQ4(w, p) == b.high[p] {
      forall j: nat | j < 4 ensures Nibble(w[4 * p + j], 1) == Crumb(b.high[p], j) {
        PartsIQ4(b, 4 * p + j);
        assert (4 * p + j) / 4 == p && (4 * p + j) % 4 == j;
      }
      assert Nibble(w[4 * p + 0], 1) == Crumb(b.high[p], 0);
      JoinOfCrumbs(b.high[p]);
    }
  }

  /** scales_l with scales_h and eight six-bit scales are the same thing. */
  lemma IQ4RoundTrip(v: seq<bv8>, b: IQ4)
    requires |v| == 8 && AllBelow(v, 64) && ValidIQ4(b)
    ensures DecodeIQ4(EncodeIQ4(v)) == v
    ensures EncodeIQ4(DecodeIQ4(b)) == b && AllBelow(DecodeIQ4(b), 64)
  {
    hide ScaleIQ4, EncodeIQ4, Nibble, Crumb;
    forall i: nat | i < 8 ensures DecodeIQ4(EncodeIQ4(v))[i] == v[i] && DecodeIQ4(b)[i] < 64 {
      EncodedIQ4(v, i);
      PartsIQ4(b, i);
    }
    DecodedIQ4(b);
  }
}

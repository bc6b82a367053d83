/**
 Cache keys of the two families that share one table, their home slots, the shader blobs
 that exist, and the bound on how many keys the public entry points can produce.
 */
module PipelineKeys {
  import opened Bits

  const WORD64: nat := 0x1_0000_0000_0000_0000
  const MARKER: nat := 0x8000_0000_0000_0000

  function U64(x: nat): (w: nat)
    ensures w < WORD64
  {
    x % WORD64
  }

  /** The base-31 numeral of the five fields and the three tile constants, 16 each. */
  function Numeral(dtype: nat, transA: nat, transB: nat, strided: nat, tier: nat): nat {
    ((((dtype * 31 + transA) * 31 + transB) * 31 + strided) * 31 + tier) * 29791 + 15888
  }

  function GemmKey(dtype: nat, transA: nat, transB: nat, strided: nat, tier: nat): nat {
    U64(Numeral(dtype, transA, transB, strided, tier))
  }

  /** The key as it is computed: multiply by 31 and add, field by field, in 64-bit arithmetic. */
  method HashKey(dtype: nat, transA: nat, transB: nat, strided: nat, tier: nat) returns (h: nat)
    requires dtype < 0x1_0000_0000
    ensures h == GemmKey(dtype, transA, transB, strided, tier)
  {
    hide U64;
    NoWrap(dtype);
    h := dtype;
    MixStep(dtype, transA);
    h := U64(h * 31 + transA);
    MixStep(dtype * 31 + transA, transB);
    h := U64(h * 31 + transB);
    MixStep((dtype * 31 + transA) * 31 + transB, strided);
    h := U64(h * 31 + strided);
    var x := ((dtype * 31 + transA) * 31 + transB) * 31 + strided;
    MixStep(x, tier);
    h := U64(h * 31 + tier);
    MixStep(x * 31 + tier, 16);
    h := U64(h * 31 + 16);
    MixStep((x * 31 + tier) * 31 + 16, 16);
    h := U64(h * 31 + 16);
    MixStep(((x * 31 + tier) * 31 + 16) * 31 + 16, 16);
    h := U64(h * 31 + 16);
  }

  /** Reducing before a step or only after it is the same. */
  lemma MixStep(x: nat, field: nat)
    ensures U64(U64(x) * 31 + field) == U64(x * 31 + field)
  {
    var q, r := x / WORD64, x % WORD64;
    var y := r * 31 + field;
    DivModUnique(x * 31 + field, WORD64, 31 * q + y / WORD64, y % WORD64);
  }

  /** Marker bit 63, data type in the upper half, kernel code in the lower half. */
  function L1L2Key(kernel: nat, dtype: nat): nat {
    Or(Or(MARKER, U64(dtype * 0x1_0000_0000)), kernel)
  }

  function GemmSlot(key: nat): nat {
    var folded := Xor(key, key / 0x1_0000_0000);
    And(U64(folded * 0x9e37_79b9_7f4a_7c15), 255)
  }

  function L1L2Slot(key: nat): nat {
    And(key, 255)
  }

  /** Each family homes its own keys; bit 63 tells the families apart. */
  function Home(key: nat): (h: nat)
    ensures h < 256
  {
    SlotMask(key);
    SlotMask(U64(Xor(key, key / 0x1_0000_0000) * 0x9e37_79b9_7f4a_7c15));
    if key >= MARKER then L1L2Slot(key) else GemmSlot(key)
  }

  lemma SlotMask(x: nat)
    ensures And(x, 255) == x % 256
  {
    assert Pow2(8) == 256;
    AndMask(x, 8);
  }

  // ---------------------------------------------------------------- key arithmetic

  /** With data types below 2^29 and digits below 31 nothing wraps, and bit 63 stays clear. */
  lemma GemmKeyIsNumeral(dtype: nat, transA: nat, transB: nat, strided: nat, tier: nat)
    requires dtype < 0x1000_0000 && transA < 31 && transB < 31 && strided < 31 && tier < 31
    ensures GemmKey(dtype, transA, transB, strided, tier) ==
            ((((dtype * 31 + transA) * 31 + transB) * 31 + strided) * 31 + tier) * 29791 + 15888
    ensures GemmKey(dtype, transA, transB, strided, tier) < MARKER
  {
    NoWrap(Numeral(dtype, transA, transB, strided, tier));
  }

  lemma NoWrap(x: nat)
    requires x < WORD64
    ensures U64(x) == x
  {
  }

  lemma GemmKeyInjective(d: nat, a: nat, b: nat, s: nat, t: nat, d': nat, a': nat, b': nat, s': nat, t': nat)
    requires d < 0x1000_0000 && a < 31 && b < 31 && s < 31 && t < 31
    requires d' < 0x1000_0000 && a' < 31 && b' < 31 && s' < 31 && t' < 31
    requires GemmKey(d, a, b, s, t) == GemmKey(d', a', b', s', t')
    ensures d == d' && a == a' && b == b' && s == s' && t == t'
  {
    GemmKeyIsNumeral(d, a, b, s, t);
    GemmKeyIsNumeral(d', a', b', s', t');
  }

  /** GEMM keys fit in 32 bits for data type 0 only. */
  lemma GemmKeyWidth(dtype: nat, transA: nat, transB: nat, strided: nat, tier: nat)
    requires dtype < 0x1000_0000 && transA < 2 && transB < 2 && strided < 2 && tier < 3
    ensures GemmKey(dtype, transA, transB, strided, tier) < 0x1_0000_0000 <==> dtype == 0
  {
    GemmKeyIsNumeral(dtype, transA, transB, strided, tier);
  }

  lemma L1L2KeyValue(kernel: nat, dtype: nat)
    requires kernel < 0x1_0000_0000 && dtype < 0x8000_0000
    ensures L1L2Key(kernel, dtype) == MARKER + dtype * 0x1_0000_0000 + kernel
  {
    Pow2Of32();
    hide Or, Pow2;
    var low := dtype * 0x1_0000_0000;
    NoWrap(low);
    assert Or(MARKER, low) == MARKER + low by {
      OrShifted(1, low, 63);
    }
    assert Or(MARKER + low, kernel) == MARKER + low + kernel by {
      OrShifted(0x8000_0000 + dtype, kernel, 32);
    }
  }

  lemma Pow2Of32()
    ensures Pow2(32) == 0x1_0000_0000 && Pow2(63) == MARKER
  {
    assert Pow2(16) == 0x1_0000;
    assert Pow2(15) == 0x8000;
    Pow2Add(16, 16);
    Pow2Add(15, 16);
    Pow2Add(31, 32);
  }

  lemma L1L2KeyInjective(k: nat, d: nat, k': nat, d': nat)
    requires k < 0x1_0000_0000 && d < 0x8000_0000 && k' < 0x1_0000_0000 && d' < 0x8000_0000
    requires L1L2Key(k, d) == L1L2Key(k', d')
    ensures k == k' && d == d'
  {
    L1L2KeyValue(k, d);
    L1L2KeyValue(k', d');
  }

  // ---------------------------------------------------------------- what a home slot depends on

  /** The low byte of an exclusive or. */
  lemma XorByte(x: nat, y: nat)
    ensures Xor(x, y) % 256 == Xor(x % 256, y % 256) && Xor(x % 256, y % 256) < 256
  {
    XorRemainder(x, y, 8);
    assert Pow2(8) == 256;
  }

  lemma ProductByte(x: nat, factor: nat)
    ensures U64(x * factor) % 256 == x % 256 * (factor % 256) % 256
  {
    var q, r, f, g := x / 256, x % 256, factor / 256, factor % 256;
    var w, v := U64(x * factor), r * g % 256;
    var k := x * factor / WORD64;
    assert x * factor == (256 * q + r) * (256 * f + g);
    ExpandBytes(q, r, f, g);
    assert x * factor == 256 * (256 * (q * f) + q * g + r * f) + r * g;
    assert w == x * factor - WORD64 * k;
    assert r * g == 256 * (r * g / 256) + v;
    DivModUnique(w, 256, 256 * (q * f) + q * g + r * f + r * g / 256 - WORD64 / 256 * k, v);
  }

  lemma ExpandBytes(q: nat, r: nat, f: nat, g: nat)
    ensures (256 * q + r) * (256 * f + g) == 256 * (256 * (q * f) + q * g + r * f) + r * g
  {
    assert (256 * q + r) * (256 * f + g) == 256 * q * (256 * f) + 256 * q * g + r * (256 * f) + r * g;
  }

  /** The multiplicative hash keeps the low bits of its product, so the home slot of a GEMM key depends on two bytes
      of the key only: 21 times the exclusive or of the low bytes of its halves. */
  lemma GemmSlotBytes(key: nat)
    ensures GemmSlot(key) == Xor(key % 256, key / 0x1_0000_0000 % 256) * 21 % 256
  {
    var folded := Xor(key, key / 0x1_0000_0000);
    SlotMask(U64(folded * 0x9e37_79b9_7f4a_7c15));
    XorByte(key, key / 0x1_0000_0000);
    hide And, Xor, U64;
    ProductByte(folded, 0x9e37_79b9_7f4a_7c15);
  }

  /** An L1/L2 key is at home in the slot of its kernel code, whatever its data type. */
  lemma L1L2SlotIsKernel(kernel: nat, dtype: nat)
    requires kernel < 256 && dtype < 0x8000_0000
    ensures L1L2Slot(L1L2Key(kernel, dtype)) == kernel
  {
    L1L2KeyValue(kernel, dtype);
    SlotMask(L1L2Key(kernel, dtype));
    hide L1L2Key, And;
    DivModUnique(L1L2Key(kernel, dtype), 256, MARKER / 256 + dtype * 0x100_0000, kernel);
  }

  // ---------------------------------------------------------------- shader blobs

  const BASELINE: nat := 0
  const SUBGROUP: nat := 1
  const COOPMATRIX: nat := 2

  predicate IsPlainGemm(dtype: nat) { dtype in {0, 1, 2, 4} }

  predicate IsQgemmAllTiers(dtype: nat) { 5 <= dtype <= 11 }

  predicate IsQgemmBaselineOnly(dtype: nat) { 12 <= dtype <= 13 }

  predicate IsQgemmF16(dtype: nat) { 32 <= dtype <= 38 }

  predicate IsExtended(dtype: nat) { 39 <= dtype <= 54 }

  predicate IsConvF32(dtype: nat) { dtype == 60 }

  /** Which (data type, tier) pairs have an embedded shader. */
  predicate HasGemmBlob(useCoopmat: bool, dtype: nat, tier: nat) {
    if tier == COOPMATRIX then useCoopmat && (IsPlainGemm(dtype) || IsQgemmAllTiers(dtype) || IsQgemmF16(dtype))
    else if tier == SUBGROUP then IsPlainGemm(dtype) || IsQgemmAllTiers(dtype) || IsQgemmF16(dtype)
    else if tier == BASELINE then
      || IsPlainGemm(dtype)
      || IsQgemmAllTiers(dtype)
      || IsQgemmBaselineOnly(dtype)
      || IsExtended(dtype)
      || IsConvF32(dtype)
    else false
  }

  predicate HasL1L2Blob(kernel: nat, dtype: nat) {
    (kernel <= 10 && dtype == 0) || (kernel in {0, 1, 2, 10} && dtype == 1)
  }

  // ---------------------------------------------------------------- the keys the public entry points can produce

  datatype Config =
    | GemmConfig(dtype: nat, transA: nat, transB: nat, strided: nat, tier: nat)
    | L1L2Config(kernel: nat, l1l2Type: nat)

  function KeyOf(c: Config): nat {
    match c
    case GemmConfig(d, a, b, s, t) => GemmKey(d, a, b, s, t)
    case L1L2Config(k, d) => L1L2Key(k, d)
  }

  /** Only the plain GEMMs take transposes and strides; every other caller passes zeros. */
  predicate PublicFlags(dtype: nat, transA: nat, transB: nat, strided: nat) {
    && transA < 2 && transB < 2 && strided < 2
    && (IsPlainGemm(dtype) || (transA == 0 && transB == 0 && strided == 0))
  }

  predicate PublicConfig(c: Config) {
    match c
    case GemmConfig(d, a, b, s, t) => HasGemmBlob(true, d, t) && PublicFlags(d, a, b, s)
    case L1L2Config(k, d) => HasL1L2Blob(k, d)
  }

  const PUBLIC_KEYS: nat := 165

  /** A numbering of the public configurations. */
  function Index(c: Config): (i: nat)
    requires PublicConfig(c)
    ensures i < PUBLIC_KEYS
  {
    match c
    case GemmConfig(d, a, b, s, t) =>
      if IsPlainGemm(d) then ((((if d == 4 then 3 else d) * 2 + a) * 2 + b) * 2 + s) * 3 + t
      else if IsQgemmAllTiers(d) then 96 + (d - 5) * 3 + t
      else if IsQgemmF16(d) then 117 + (d - 32) * 2 + (t - 1)
      else if IsQgemmBaselineOnly(d) then 131 + (d - 12)
      else if IsExtended(d) then 133 + (d - 39)
      else 149
    case L1L2Config(k, d) =>
      if d == 0 then 150 + k else if k == 10 then 164 else 161 + k
  }

  lemma IndexInjective(c: Config, c': Config)
    requires PublicConfig(c) && PublicConfig(c') && Index(c) == Index(c')
    ensures c == c'
  {
    assert Index(c) >= 150 <==> c.L1L2Config?;
    assert Index(c') >= 150 <==> c'.L1L2Config?;
    if c.GemmConfig? {
      GemmIndexInjective(c, c');
    }
  }

  /** The seven blocks of GEMM indices, and the digits inside each block. */
  lemma GemmIndexInjective(c: Config, c': Config)
    requires c.GemmConfig? && c'.GemmConfig?
    requires PublicConfig(c) && PublicConfig(c') && Index(c) == Index(c')
    ensures c == c'
  {
    GemmIndexBlock(c);
    GemmIndexBlock(c');
    if IsPlainGemm(c.dtype) {
      PlainIndexInjective(c, c');
    }
  }

  lemma PlainIndex(c: Config)
    requires c.GemmConfig? && PublicConfig(c) && IsPlainGemm(c.dtype)
    ensures c.transA < 2 && c.transB < 2 && c.strided < 2 && c.tier < 3
    ensures var g := if c.dtype == 4 then 3 else c.dtype;
            Index(c) == (((g * 2 + c.transA) * 2 + c.transB) * 2 + c.strided) * 3 + c.tier
  {
  }

  lemma PlainIndexInjective(c: Config, c': Config)
    requires c.GemmConfig? && c'.GemmConfig?
    requires PublicConfig(c) && PublicConfig(c') && Index(c) == Index(c')
    requires IsPlainGemm(c.dtype) && IsPlainGemm(c'.dtype)
    ensures c == c'
  {
    var g, g' := if c.dtype == 4 then 3 else c.dtype, if c'.dtype == 4 then 3 else c'.dtype;
    PlainIndex(c);
    PlainIndex(c');
    hide Index, PublicConfig;
    MixedDigits(g, c.transA, c.transB, c.strided, c.tier, g', c'.transA, c'.transB, c'.strided, c'.tier);
  }

  lemma GemmIndexBlock(c: Config)
    requires c.GemmConfig? && PublicConfig(c)
    ensures Index(c) < 96 <==> IsPlainGemm(c.dtype)
    ensures 96 <= Index(c) < 117 <==> IsQgemmAllTiers(c.dtype)
    ensures 117 <= Index(c) < 131 <==> IsQgemmF16(c.dtype)
    ensures 131 <= Index(c) < 133 <==> IsQgemmBaselineOnly(c.dtype)
    ensures 133 <= Index(c) < 149 <==> IsExtended(c.dtype)
    ensures 149 <= Index(c) <==> IsConvF32(c.dtype)
    ensures c.tier < 3
  {
  }

  lemma MixedDigits(g: nat, a: nat, b: nat, s: nat, t: nat, g': nat, a': nat, b': nat, s': nat, t': nat)
    requires a < 2 && b < 2 && s < 2 && t < 3 && a' < 2 && b' < 2 && s' < 2 && t' < 3
    requires (((g * 2 + a) * 2 + b) * 2 + s) * 3 + t == (((g' * 2 + a') * 2 + b') * 2 + s') * 3 + t'
    ensures g == g' && a == a' && b == b' && s == s' && t == t'
  {
  }

  /** The plain GEMMs use every number below 96. */
  lemma PlainIndexOnto(i: nat) returns (c: Config)
    requires i < 96
    ensures PublicConfig(c) && Index(c) == i
  {
    var x := i / 3;
    var y := x / 2;
    var z := y / 2;
    var g := z / 2;
    c := GemmConfig(if g == 3 then 4 else g, z % 2, y % 2, x % 2, i % 3);
    PublicPlain(g, z % 2, y % 2, x % 2, i % 3);
    hide PublicConfig, Index;
    assert z == 2 * g + z % 2 && y == 2 * z + y % 2 && x == 2 * y + x % 2 && i == 3 * x + i % 3;
  }

  lemma PublicPlain(g: nat, a: nat, b: nat, s: nat, t: nat)
    requires g < 4 && a < 2 && b < 2 && s < 2 && t < 3
    ensures var c := GemmConfig(if g == 3 then 4 else g, a, b, s, t);
            PublicConfig(c) && Index(c) == (((g * 2 + a) * 2 + b) * 2 + s) * 3 + t
  {
  }

  /** The remaining GEMM families use the numbers from 96 to 149. */
  lemma OtherIndexOnto(i: nat) returns (c: Config)
    requires 96 <= i < 150
    ensures PublicConfig(c) && Index(c) == i
  {
    c := GemmConfig(60, 0, 0, 0, 0);
    if i < 117 {
      var j := i - 96;
      c := GemmConfig(5 + j / 3, 0, 0, 0, j % 3);
    } else if i < 131 {
      var j := i - 117;
      c := GemmConfig(32 + j / 2, 0, 0, 0, 1 + j % 2);
    } else if i < 133 {
      c := GemmConfig(12 + (i - 131), 0, 0, 0, 0);
    } else if i < 149 {
      c := GemmConfig(39 + (i - 133), 0, 0, 0, 0);
    }
  }

  /** No number below 165 is unused: there are exactly 165 public configurations. */
  lemma IndexOnto(i: nat) returns (c: Config)
    requires i < 165
    ensures PublicConfig(c) && Index(c) == i
  {
    if i < 96 {
      c := PlainIndexOnto(i);
    } else if i < 150 {
      c := OtherIndexOnto(i);
    } else if i < 161 {
      c := L1L2Config(i - 150, 0);
    } else {
      c := L1L2Config(if i == 164 then 10 else i - 161, 1);
    }
  }

  /** Which kernels run on which tier. The cooperative-matrix tier offers exactly what the subgroup tier offers, if
      the operator opted in; the kernels a device without subgroups lacks are the f16 ones, codes 32 to 38; those that
      no tier above the baseline has are codes 12, 13, 39 to 54, and 60. */
  lemma BlobsByTier(useCoopmat: bool, dtype: nat)
    ensures HasGemmBlob(useCoopmat, dtype, 2) <==> useCoopmat && HasGemmBlob(useCoopmat, dtype, 1)
    ensures HasGemmBlob(useCoopmat, dtype, 1) && !HasGemmBlob(useCoopmat, dtype, 0) <==> 32 <= dtype <= 38
    ensures HasGemmBlob(useCoopmat, dtype, 0) && !HasGemmBlob(useCoopmat, dtype, 1) <==>
            dtype == 12 || dtype == 13 || 39 <= dtype <= 54 || dtype == 60
    ensures HasGemmBlob(useCoopmat, dtype, 0) && HasGemmBlob(useCoopmat, dtype, 1) <==>
            dtype == 0 || dtype == 1 || dtype == 2 || 4 <= dtype <= 11
    ensures forall t: nat :: HasGemmBlob(useCoopmat, dtype, t) ==> t <= 2
  {
  }

  lemma KeyInjective(c: Config, c': Config)
    requires PublicConfig(c) && PublicConfig(c') && KeyOf(c) == KeyOf(c')
    ensures c == c'
  {
    KeyFamily(c);
    KeyFamily(c');
    hide Numeral;
    match (c, c') {
      case (GemmConfig(d, a, b, s, t), GemmConfig(d', a', b', s', t')) =>
        GemmKeyInjective(d, a, b, s, t, d', a', b', s', t');
      case (L1L2Config(k, d), L1L2Config(k', d')) =>
        L1L2KeyInjective(k, d, k', d');
      case _ =>
    }
  }

  /** Bit 63 separates the families. */
  lemma KeyFamily(c: Config)
    requires PublicConfig(c)
    ensures KeyOf(c) >= MARKER <==> c.L1L2Config?
  {
    match c {
      case GemmConfig(d, a, b, s, t) => GemmKeyIsNumeral(d, a, b, s, t);
      case L1L2Config(k, d) => L1L2KeyValue(k, d);
    }
  }

  ghost predicate PublicKey(key: nat) {
    exists c :: PublicConfig(c) && KeyOf(c) == key
  }

  ghost function ConfigOf(key: nat): (c: Config)
    requires PublicKey(key)
    ensures PublicConfig(c) && KeyOf(c) == key
  {
    var c :| PublicConfig(c) && KeyOf(c) == key; c
  }

  /** The numbering carried over to keys. */
  ghost function Rank(key: nat): nat {
    if PublicKey(key) then Index(ConfigOf(key)) else 0
  }

  lemma RankInjective(k: nat, k': nat)
    requires PublicKey(k) && PublicKey(k') && Rank(k) == Rank(k')
    ensures k == k'
  {
    IndexInjective(ConfigOf(k), ConfigOf(k'));
  }
}

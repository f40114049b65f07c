/** Index arithmetic of the four translation levels (4 KiB granule). */
module Geometry {
  import opened Arithmetic

  type Level = n: nat | n <= 3

  /** `1 << (12 + 9 * (3 - level))`: the bytes one descriptor of a level covers. */
  function BlockSize(level: Level): (s: nat)
    ensures s > 0
  {
    match level
    case 0 => 0x80_0000_0000
    case 1 => 0x4000_0000
    case 2 => 0x20_0000
    case 3 => 0x1000
  }

  /** `k` descriptors of a level cover this many bytes. */
  function Extent(level: Level, k: nat): nat
  {
    match level
    case 0 => k * 0x80_0000_0000
    case 1 => k * 0x4000_0000
    case 2 => k * 0x20_0000
    case 3 => k * 0x1000
  }

  /** `x >> shift` */
  function Index(level: Level, x: nat): nat
  {
    match level
    case 0 => x / 0x80_0000_0000
    case 1 => x / 0x4000_0000
    case 2 => x / 0x20_0000
    case 3 => x / 0x1000
  }

  /** `x & mask` for the mask of a level */
  function Within(level: Level, x: nat): nat
  {
    match level
    case 0 => x % 0x80_0000_0000
    case 1 => x % 0x4000_0000
    case 2 => x % 0x20_0000
    case 3 => x % 0x1000
  }

  lemma Split(level: Level, x: nat)
    ensures Extent(level, Index(level, x)) + Within(level, x) == x
    ensures Within(level, x) < BlockSize(level)
    ensures Extent(level, Index(level, x)) + BlockSize(level) == Extent(level, Index(level, x) + 1)
  {
  }

  lemma ExtentSucc(level: Level, k: nat)
    ensures Extent(level, k + 1) == Extent(level, k) + BlockSize(level)
    ensures Extent(level, 0) == 0
  {
  }

  lemma ExtentMonotone(level: Level, j: nat, k: nat)
    requires j <= k
    ensures Extent(level, j) <= Extent(level, k)
    ensures j < k ==> Extent(level, j) + BlockSize(level) <= Extent(level, k)
  {
  }

  /** A multiple of a block size is a multiple of every smaller one. */
  lemma AlignedDeeper(level: Level, x: nat)
    requires level < 3 && Within(level, x) == 0
    ensures Within(level + 1, x) == 0
  {
    Split(level, x);
    assert Extent(level, Index(level, x)) == Extent(level + 1, 512 * Index(level, x));
    WholeExtent(level + 1, 512 * Index(level, x));
  }

  lemma AlignedToPages(level: Level, x: nat)
    requires Within(level, x) == 0
    ensures Within(3, x) == 0 && x % 0x1000 == 0
    decreases 3 - level
  {
    if level < 3 {
      AlignedDeeper(level, x);
      AlignedToPages(level + 1, x);
    }
  }

  lemma AlignedStep(level: Level, base: nat, k: nat)
    requires Within(level, base) == 0
    ensures Within(level, base + Extent(level, k)) == 0
  {
    Split(level, base);
    WholeExtent(level, Index(level, base) + k);
  }

  lemma WholeExtent(level: Level, q: nat)
    ensures Within(level, Extent(level, q)) == 0 && Index(level, Extent(level, q)) == q
  {
    match level
    case 0 => DivUnique(q * 0x80_0000_0000, 0x80_0000_0000, q, 0);
    case 1 => DivUnique(q * 0x4000_0000, 0x4000_0000, q, 0);
    case 2 => DivUnique(q * 0x20_0000, 0x20_0000, q, 0);
    case 3 => DivUnique(q * 0x1000, 0x1000, q, 0);
  }

  /** 512 descriptors fill one descriptor of the level above. */
  lemma FullTable(level: Level)
    requires 1 <= level <= 3
    ensures Extent(level, 512) == BlockSize(level - 1)
  {
  }

  lemma AsQuotient(level: Level, x: nat)
    ensures Within(level, x) == x % BlockSize(level) && Index(level, x) == x / BlockSize(level)
  {
  }

  /** Moving by a multiple of a block size does not change the offset inside a block. */
  lemma OffsetKept(level: Level, x: nat, n: nat)
    requires Within(level, n) == 0
    ensures Within(level, x + n) == Within(level, x)
  {
    hide Within, BlockSize;
    AsQuotient(level, n);
    AsQuotient(level, x);
    AsQuotient(level, x + n);
    ModShift(x, n, BlockSize(level));
  }

  /** Equal offsets stay equal when both addresses move by the same amount. */
  lemma OffsetsMove(level: Level, x: nat, y: nat, n: nat)
    requires Within(level, x) == Within(level, y)
    ensures Within(level, x + n) == Within(level, y + n)
  {
    hide Within, BlockSize;
    AsQuotient(level, x);
    AsQuotient(level, y);
    AsQuotient(level, x + n);
    AsQuotient(level, y + n);
    ModsMove(x, y, n, BlockSize(level));
  }

  /** The three counters of the table writer stay page multiples. */
  lemma PagesMove(pa: nat, ipa: nat, size: nat, n: nat)
    requires Within(3, pa) == Within(3, ipa) == Within(3, size) == Within(3, n) == 0
    ensures Within(3, pa + n) == Within(3, ipa + n) == 0
    ensures size > 0 && n <= 0x1000 ==> n <= size
    ensures n <= size ==> Within(3, size - n) == 0
  {
    OffsetKept(3, pa, n);
    OffsetKept(3, ipa, n);
    if n <= size {
      OffsetKept(3, size - n, n);
    }
  }

  lemma BlockMoves(level: Level, pa: nat, ipa: nat, size: nat)
    requires Within(3, pa) == Within(3, ipa) == Within(3, size) == 0 && BlockSize(level) <= size
    ensures Within(3, pa + BlockSize(level)) == Within(3, ipa + BlockSize(level)) == 0
    ensures Within(3, size - BlockSize(level)) == 0
  {
    AlignedToPages(level, BlockSize(level));
    PagesMove(pa, ipa, size, BlockSize(level));
  }

  lemma PagesAdvance(x: nat, y: nat)
    requires Within(3, x) == Within(3, y) == 0
    ensures x < y ==> x + 0x1000 <= y
  {
  }
}

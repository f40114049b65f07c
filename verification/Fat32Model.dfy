/** FAT32 files as cluster chains, and the arithmetic of a transfer. */
module Fat32Model {
  import opened Options
  import opened Arithmetic

  newtype byte = x: int | 0 <= x < 256

  datatype Fs = Fs(base: nat, lbaSize: nat, bytesPerSector: nat, sectorsPerCluster: nat,
                   reservedSectors: nat, fatSectors: nat, numberOfFats: nat, fat: seq<nat>)
  {
    function BytesPerCluster(): nat { sectorsPerCluster * bytesPerSector }

    /** `cluster_to_sector` */
    function ClusterToSector(cluster: nat): nat
      requires cluster >= 2
    {
      reservedSectors + numberOfFats * fatSectors + (cluster - 2) * sectorsPerCluster
    }

    /** `get_next_cluster` */
    function NextCluster(cluster: nat): Option<nat> {
      if cluster >= |fat| then None
      else if 2 <= fat[cluster] < 0xFFF_FFF8 then Some(fat[cluster])
      else None
    }

    ghost predicate Valid() {
      bytesPerSector > 0 && sectorsPerCluster > 0 && lbaSize > 0
    }
  }

  // ------------------------------------------------------------------ the layout of a volume

  /** First sector of FAT copy number `j`. The copies follow the reserved sectors, one after the other. */
  ghost function FatStart(fs: Fs, j: nat): nat {
    if j == 0 then fs.reservedSectors else FatStart(fs, j - 1) + fs.fatSectors
  }

  /** First sector of a cluster. Cluster 2 begins where the last copy of the FAT ends, and each other one where the one
      before it ends. */
  ghost function ClusterStart(fs: Fs, cluster: nat): nat
    requires cluster >= 2
  {
    if cluster == 2 then FatStart(fs, fs.numberOfFats) else ClusterStart(fs, cluster - 1) + fs.sectorsPerCluster
  }

  lemma {:induction false} FatStartIs(fs: Fs, j: nat)
    ensures FatStart(fs, j) == fs.reservedSectors + j * fs.fatSectors
  {
    if j > 0 {
      FatStartIs(fs, j - 1);
      Distribute(j - 1, 1, fs.fatSectors);
    }
  }

  /** The code finds the cluster there. */
  lemma {:induction false} ClusterToSectorIs(fs: Fs, cluster: nat)
    requires cluster >= 2
    ensures fs.ClusterToSector(cluster) == ClusterStart(fs, cluster)
  {
    if cluster == 2 {
      FatStartIs(fs, fs.numberOfFats);
    } else {
      ClusterToSectorIs(fs, cluster - 1);
      Distribute(cluster - 3, 1, fs.sectorsPerCluster);
    }
  }

  /** No cluster meets the reserved sectors or a copy of the FAT. */
  lemma {:induction false} ClustersBehindFats(fs: Fs, cluster: nat, j: nat)
    requires cluster >= 2 && j <= fs.numberOfFats
    ensures fs.reservedSectors <= FatStart(fs, j) <= FatStart(fs, fs.numberOfFats) <= ClusterStart(fs, cluster)
    ensures j < fs.numberOfFats ==> FatStart(fs, j) + fs.fatSectors <= ClusterStart(fs, cluster)
    decreases cluster
  {
    if cluster > 2 {
      ClustersBehindFats(fs, cluster - 1, j);
    } else {
      FatsInOrder(fs, j, fs.numberOfFats);
      FatsInOrder(fs, 0, j);
    }
  }

  lemma {:induction false} FatsInOrder(fs: Fs, j: nat, k: nat)
    requires j <= k
    ensures FatStart(fs, j) <= FatStart(fs, k)
    ensures j < k ==> FatStart(fs, j) + fs.fatSectors <= FatStart(fs, k)
    decreases k
  {
    if j < k {
      FatsInOrder(fs, j, k - 1);
    }
  }

  // ------------------------------------------------------------------ chains

  /** The FAT entry of cluster `c` names a further cluster, `d`. */
  ghost predicate Follows(fs: Fs, c: nat, d: nat) {
    c < |fs.fat| && fs.fat[c] == d && d != 0 && d != 1 && d <= 0xFFF_FFF7
  }

  /** It names none: the file ends, or the entry is outside the FAT. */
  ghost predicate Last(fs: Fs, c: nat) {
    c >= |fs.fat| || fs.fat[c] == 0 || fs.fat[c] == 1 || fs.fat[c] > 0xFFF_FFF7
  }

  /** `cs` is the whole cluster chain from `entry`. */
  ghost predicate IsChain(fs: Fs, entry: nat, cs: seq<nat>) {
    && |cs| > 0 && cs[0] == entry
    && (forall i :: 0 <= i < |cs| - 1 ==> Follows(fs, cs[i], cs[i + 1]))
    && Last(fs, cs[|cs| - 1])
    && (forall i :: 0 <= i < |cs| ==> cs[i] >= 2)
  }

  /** The code finds the cluster that follows, or none exactly if there is none. */
  lemma NextClusterIs(fs: Fs, c: nat, d: nat)
    ensures fs.NextCluster(c) == Some(d) <==> Follows(fs, c, d)
    ensures fs.NextCluster(c) == None <==> Last(fs, c)
  {
  }

  /** A file of the clusters 2 and 4. */
  lemma ChainExample(fs: Fs)
    requires fs.fat == [0, 0, 4, 0, 0xFFF_FFFF]
    ensures IsChain(fs, 2, [2, 4])
  {
  }

  lemma ChainNumbers(fs: Fs, entry: nat, cs: seq<nat>, i: nat)
    requires IsChain(fs, entry, cs) && i < |cs|
    ensures cs[i] >= 2
    ensures i + 1 < |cs| ==> fs.NextCluster(cs[i]) == Some(cs[i + 1])
    ensures i + 1 == |cs| ==> fs.NextCluster(cs[i]) == None
  {
    if i + 1 < |cs| {
      NextClusterIs(fs, cs[i], cs[i + 1]);
    } else {
      NextClusterIs(fs, cs[i], 0);
    }
  }

  /** How many clusters from position `i` on follow each other on the disk. */
  ghost function RunLength(cs: seq<nat>, i: nat): (n: nat)
    requires i < |cs|
    ensures 1 <= n <= |cs| - i
    decreases |cs| - i
  {
    if i + 1 < |cs| && cs[i + 1] == cs[i] + 1 then 1 + RunLength(cs, i + 1) else 1
  }

  lemma {:induction false} RunConsecutive(cs: seq<nat>, i: nat, k: nat)
    requires i < |cs| && k < RunLength(cs, i)
    ensures cs[i + k] == cs[i] + k
    ensures k + 1 < RunLength(cs, i) ==> cs[i + k + 1] == cs[i + k] + 1
    ensures k + 1 == RunLength(cs, i) && i + k + 1 < |cs| ==> cs[i + k + 1] != cs[i + k] + 1
    decreases k
  {
    if k > 0 {
      RunConsecutive(cs, i + 1, k - 1);
    }
  }

  // ------------------------------------------------------------------ offsets and sector counts

  /** How the transfer splits an offset inside a cluster: whole sectors to skip, and the rest. The rest
      stays a whole sector when the offset is exactly one. */
  function SkipSectors(fs: Fs, offset: nat): nat
    requires fs.bytesPerSector > 0
  {
    if offset > fs.bytesPerSector then offset / fs.bytesPerSector else 0
  }

  function RestOffset(fs: Fs, offset: nat): nat
    requires fs.bytesPerSector > 0
  {
    if offset > fs.bytesPerSector then offset % fs.bytesPerSector else offset
  }

  lemma SplitOffset(fs: Fs, offset: nat)
    requires fs.bytesPerSector > 0
    ensures SkipSectors(fs, offset) * fs.bytesPerSector + RestOffset(fs, offset) == offset
    ensures RestOffset(fs, offset) <= fs.bytesPerSector
  {
  }

  /** Nothing is left inside a sector exactly for sector-aligned offsets other than one single sector; `write`
      refuses every other offset. */
  lemma RestZeroIff(fs: Fs, offset: nat)
    requires fs.bytesPerSector > 0
    ensures RestOffset(fs, offset) == 0 <==> offset % fs.bytesPerSector == 0 && offset != fs.bytesPerSector
  {
    if 0 < offset < fs.bytesPerSector {
      DivUnique(offset, fs.bytesPerSector, 0, offset);
    }
  }

  /** `1 + (bytes.max(1) - 1) / bytes_per_sector` */
  function SectorsFor(fs: Fs, bytes: nat): nat
    requires fs.bytesPerSector > 0
  {
    1 + ((if bytes < 1 then 1 else bytes) - 1) / fs.bytesPerSector
  }

  /** The fewest sectors, but at least one, that hold so many bytes. */
  lemma SectorsEnough(fs: Fs, bytes: nat)
    requires fs.bytesPerSector > 0
    ensures bytes <= SectorsFor(fs, bytes) * fs.bytesPerSector
    ensures bytes > 0 ==> (SectorsFor(fs, bytes) - 1) * fs.bytesPerSector < bytes
  {
    var b := (if bytes < 1 then 1 else bytes) - 1;
    var q := b / fs.bytesPerSector;
    assert b == q * fs.bytesPerSector + b % fs.bytesPerSector;
    assert (q + 1) * fs.bytesPerSector == q * fs.bytesPerSector + fs.bytesPerSector;
  }

  lemma ProductOfThree(a: nat, b: nat, c: nat)
    ensures a * (b * c) == (a * b) * c
  {
  }

  /** Whole clusters in front only add their sectors. */
  lemma SectorsAdd(fs: Fs, m: nat, bytes: nat)
    requires fs.bytesPerSector > 0 && bytes > 0
    ensures SectorsFor(fs, m * fs.BytesPerCluster() + bytes) == m * fs.sectorsPerCluster + SectorsFor(fs, bytes)
  {
    var n := m * fs.sectorsPerCluster;
    ProductOfThree(m, fs.sectorsPerCluster, fs.bytesPerSector);
    MultipleMod(n, fs.bytesPerSector);
    ModShift(bytes - 1, n * fs.bytesPerSector, fs.bytesPerSector);
  }

  // ------------------------------------------------------------------ what a file holds

  /** Bytes by address; addresses never written read as zero. */
  type Store = map<nat, byte>

  function ByteAt(m: Store, a: nat): byte { if a in m then m[a] else 0 }

  /** `n` bytes from address `a`. */
  function Slice(m: Store, a: nat, n: nat): (s: seq<byte>)
    ensures |s| == n && forall i :: 0 <= i < n ==> s[i] == ByteAt(m, a + i)
  {
    seq(n, i requires 0 <= i < n => ByteAt(m, a + i))
  }

  /** The store with `s` written at address `a`. */
  function Put(m: Store, a: nat, s: seq<byte>): (m': Store)
    ensures forall x: nat :: ByteAt(m', x) == if a <= x < a + |s| then s[x - a] else ByteAt(m, x)
    decreases |s|
  {
    if s == [] then m else Put(m[a := s[0]], a + 1, s[1..])
  }

  /** Where a cluster begins on the disk. */
  ghost function ClusterAddress(fs: Fs, cluster: nat): nat
    requires cluster >= 2
  {
    fs.base + ClusterStart(fs, cluster) * fs.bytesPerSector
  }

  lemma ClusterAddressIs(fs: Fs, cluster: nat)
    requires cluster >= 2
    ensures ClusterAddress(fs, cluster) == fs.base + fs.ClusterToSector(cluster) * fs.bytesPerSector
  {
    ClusterToSectorIs(fs, cluster);
  }

  /** First address behind the last copy of the FAT. */
  ghost function DataStart(fs: Fs): nat {
    fs.base + FatStart(fs, fs.numberOfFats) * fs.bytesPerSector
  }

  lemma ClusterInData(fs: Fs, cluster: nat)
    requires cluster >= 2
    ensures ClusterAddress(fs, cluster) >= DataStart(fs)
  {
    ClustersBehindFats(fs, cluster, 0);
    var s, d, bps := ClusterStart(fs, cluster), FatStart(fs, fs.numberOfFats), fs.bytesPerSector;
    Distribute(d, s - d, bps);
  }

  /** The clusters of a chain one after the other: what a file is. */
  ghost function Concatenated(fs: Fs, disk: Store, cs: seq<nat>): seq<byte>
    requires forall i :: 0 <= i < |cs| ==> cs[i] >= 2
  {
    if cs == [] then []
    else Concatenated(fs, disk, cs[..|cs| - 1]) + Slice(disk, ClusterAddress(fs, cs[|cs| - 1]), fs.BytesPerCluster())
  }

  /** Byte `k` of cluster number `i` of the chain. */
  lemma {:induction false} ConcatenatedByte(fs: Fs, disk: Store, cs: seq<nat>, i: nat, k: nat)
    requires forall j :: 0 <= j < |cs| ==> cs[j] >= 2
    requires i < |cs| && k < fs.BytesPerCluster()
    ensures |Concatenated(fs, disk, cs)| == |cs| * fs.BytesPerCluster()
    ensures i * fs.BytesPerCluster() + k < |cs| * fs.BytesPerCluster()
    ensures Concatenated(fs, disk, cs)[i * fs.BytesPerCluster() + k] == ByteAt(disk, ClusterAddress(fs, cs[i]) + k)
    decreases |cs|
  {
    hide Fs.BytesPerCluster, ClusterAddress, Slice, ByteAt;
    var bpc, front := fs.BytesPerCluster(), cs[..|cs| - 1];
    ClusterBefore(|cs|, |front|, bpc);
    if |cs| == 1 {
      assert Concatenated(fs, disk, front) == [];
    } else {
      ConcatenatedByte(fs, disk, front, if i < |front| then i else 0, k);
    }
    LastClusterByte(fs, disk, cs[|cs| - 1], k);
    if i < |front| {
      ClusterBefore(|front|, i, bpc);
    }
  }

  /** A cluster in front of others ends no later than they begin. */
  lemma ClusterBefore(n: nat, i: nat, size: nat)
    requires i < n
    ensures i * size + size <= n * size
    ensures i + 1 == n ==> i * size + size == n * size
  {
    ProductAtLeast(n - i, size);
    assert (n - i) * size == n * size - i * size;
  }

  lemma LastClusterByte(fs: Fs, disk: Store, cluster: nat, k: nat)
    requires cluster >= 2 && k < fs.BytesPerCluster()
    ensures Slice(disk, ClusterAddress(fs, cluster), fs.BytesPerCluster())[k]
         == ByteAt(disk, ClusterAddress(fs, cluster) + k)
  {
  }

  /** Clusters that follow each other on the disk hold consecutive bytes: `k` bytes into the run that
      starts at position `i` is `k` bytes behind the start of that cluster. */
  lemma RunByte(fs: Fs, disk: Store, cs: seq<nat>, i: nat, k: nat)
    requires fs.Valid() && (forall j :: 0 <= j < |cs| ==> cs[j] >= 2)
    requires i < |cs| && k < RunLength(cs, i) * fs.BytesPerCluster()
    ensures i * fs.BytesPerCluster() + k < |Concatenated(fs, disk, cs)|
    ensures Concatenated(fs, disk, cs)[i * fs.BytesPerCluster() + k] == ByteAt(disk, ClusterAddress(fs, cs[i]) + k)
  {
    hide Concatenated, ClusterAddress, RunLength;
    var bpc := fs.BytesPerCluster();
    ProductPositive(fs.sectorsPerCluster, fs.bytesPerSector);
    var q, r := k / bpc, k % bpc;
    QuotientBelow(k, bpc, RunLength(cs, i));
    RunBounds(cs, i);
    RunConsecutive(cs, i, q);
    ConcatenatedByte(fs, disk, cs, i + q, r);
    ClusterPosition(i, q, bpc, k);
    SectorShift(fs, cs[i], q);
  }

  lemma RunBounds(cs: seq<nat>, i: nat)
    requires i < |cs|
    ensures i + RunLength(cs, i) <= |cs|
  {
  }

  lemma ClusterPosition(i: nat, q: nat, bpc: nat, k: nat)
    requires bpc > 0 && q == k / bpc
    ensures (i + q) * bpc + k % bpc == i * bpc + k && q * bpc + k % bpc == k
  {
    assert (i + q) * bpc == i * bpc + q * bpc;
  }

  lemma SectorShift(fs: Fs, c: nat, q: nat)
    requires c >= 2
    ensures ClusterAddress(fs, c + q) == ClusterAddress(fs, c) + q * fs.BytesPerCluster()
  {
    hide ClusterAddress;
    ClusterAddressIs(fs, c);
    ClusterAddressIs(fs, c + q);
    var spc, bps := fs.sectorsPerCluster, fs.bytesPerSector;
    assert (c + q - 2) * spc == (c - 2) * spc + q * spc;
    var s := fs.ClusterToSector(c);
    assert fs.ClusterToSector(c + q) == s + q * spc;
    assert (s + q * spc) * bps == s * bps + (q * spc) * bps;
    assert (q * spc) * bps == q * (spc * bps);
  }

  lemma ProductPositive(a: nat, b: nat)
    requires a > 0 && b > 0
    ensures a * b > 0 && a * b >= b
  {
    ProductAtLeast(a, b);
  }

  lemma QuotientBelow(k: nat, size: nat, n: nat)
    requires size > 0 && k < n * size
    ensures k / size < n
  {
    var q := k / size;
    assert k == q * size + k % size;
    assert (n - q) * size == n * size - q * size;
    PositiveFactor(n - q, size);
  }

  lemma PositiveFactor(x: int, size: nat)
    requires x * size > 0
    ensures x > 0
  {
  }
}

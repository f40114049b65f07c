/** The passes of a FAT32 transfer: how a range of a file becomes device requests, and which ranges come out right. */
module Fat32Passes {
  import opened Arithmetic
  import opened Fat32Model

  /** How many clusters so many bytes fill, at least one. */
  function Clusters(fs: Fs, bytes: nat): nat {
    if fs.BytesPerCluster() == 0 then 1
    else 1 + ((if bytes < 1 then 1 else bytes) - 1) / fs.BytesPerCluster()
  }

  function Times(m: nat, size: nat): nat { m * size }

  lemma TimesStep(m: nat, n: nat, size: nat)
    requires m < n
    ensures Times(0, size) == 0 && Times(m + 1, size) == Times(m, size) + size <= Times(n, size)
  {
    var rest: nat := n - (m + 1);
    Distribute(m, 1, size);
    Distribute(m + 1, rest, size);
  }

  /** The last cluster of a transfer: the sectors counted are the sectors of the whole. */
  lemma LastCluster(fs: Fs, m: nat, total: nat)
    requires fs.Valid() && fs.BytesPerCluster() > 0
    requires m == 0 || Times(m, fs.BytesPerCluster()) < total
    requires total <= Times(m, fs.BytesPerCluster()) + fs.BytesPerCluster()
    ensures total >= Times(m, fs.BytesPerCluster())
    ensures SectorsFor(fs, total)
         == Times(m, fs.sectorsPerCluster) + SectorsFor(fs, total - Times(m, fs.BytesPerCluster()))
    ensures Clusters(fs, total) == m + 1
  {
    var bpc := fs.BytesPerCluster();
    if total > 0 {
      var left := total - Times(m, bpc);
      hide *;
      SectorsAddTimes(fs, m, left);
      ClustersOf(fs, m, left);
    } else {
      ClustersOf(fs, 0, 1);
    }
  }

  lemma SectorsAddTimes(fs: Fs, m: nat, bytes: nat)
    requires fs.bytesPerSector > 0 && bytes > 0
    ensures SectorsFor(fs, Times(m, fs.BytesPerCluster()) + bytes)
         == Times(m, fs.sectorsPerCluster) + SectorsFor(fs, bytes)
  {
    SectorsAdd(fs, m, bytes);
  }

  lemma ClustersOf(fs: Fs, m: nat, left: nat)
    requires fs.BytesPerCluster() > 0 && 0 < left <= fs.BytesPerCluster()
    ensures Clusters(fs, Times(m, fs.BytesPerCluster()) + left) == m + 1
  {
    hide Fs.BytesPerCluster;
    DivUnique(Times(m, fs.BytesPerCluster()) + left - 1, fs.BytesPerCluster(), m, left - 1);
  }

  lemma ClusterSize(fs: Fs)
    requires fs.Valid()
    ensures fs.BytesPerCluster() >= fs.bytesPerSector > 0
  {
    ProductPositive(fs.sectorsPerCluster, fs.bytesPerSector);
  }

  lemma OffsetCases(fs: Fs, offset: nat)
    requires fs.bytesPerSector > 0
    ensures offset > fs.bytesPerSector ==>
      SkipSectors(fs, offset) == offset / fs.bytesPerSector
      && RestOffset(fs, offset) == offset - (offset / fs.bytesPerSector) * fs.bytesPerSector
    ensures offset <= fs.bytesPerSector ==> SkipSectors(fs, offset) == 0 && RestOffset(fs, offset) == offset
    ensures RestOffset(fs, offset) <= fs.bytesPerSector
  {
  }

  lemma RestBelow(fs: Fs, offset: nat)
    requires fs.Valid()
    ensures RestOffset(fs, offset) <= offset && RestOffset(fs, offset) <= fs.bytesPerSector
  {
  }

  lemma TimesIs(m: nat, size: nat)
    ensures Times(m, size) == m * size
  {
  }

  lemma TimesSectors(fs: Fs, n: nat)
    ensures Times(n, fs.BytesPerCluster()) == Times(n, fs.sectorsPerCluster) * fs.bytesPerSector
  {
    assert n * (fs.sectorsPerCluster * fs.bytesPerSector) == (n * fs.sectorsPerCluster) * fs.bytesPerSector;
  }

  lemma SectorAddress(fs: Fs, first: nat, offset: nat)
    requires fs.Valid() && first >= 2
    ensures fs.base + (fs.ClusterToSector(first) + SkipSectors(fs, offset)) * fs.bytesPerSector + RestOffset(fs, offset)
         == ClusterAddress(fs, first) + offset
  {
    hide ClusterAddress;
    ClusterAddressIs(fs, first);
    SplitOffset(fs, offset);
    var s, k, bps := fs.ClusterToSector(first), SkipSectors(fs, offset), fs.bytesPerSector;
    assert (s + k) * bps == s * bps + k * bps;
  }

  // ------------------------------------------------------------------ which transfers run to the end

  /** Bytes one pass of the outer loop transfers from chain position `i`, `d` bytes into its first sector. */
  ghost function PassBytes(fs: Fs, cs: seq<nat>, i: nat, d: nat, length: nat): nat
    requires i < |cs|
  {
    var fit := Times(RunLength(cs, i), fs.BytesPerCluster());
    if length + d <= fit then length else if fit < d then 0 else fit - d
  }

  /** Clusters that pass visits. */
  ghost function PassClusters(fs: Fs, cs: seq<nat>, i: nat, d: nat, length: nat): nat
    requires i < |cs|
  {
    if length + d <= Times(RunLength(cs, i), fs.BytesPerCluster()) then Clusters(fs, length + d) else RunLength(cs, i)
  }

  /** The pass runs out of clusters: it ends the transfer before its device request. */
  ghost predicate PassFails(fs: Fs, cs: seq<nat>, i: nat, d: nat, length: nat)
    requires i < |cs|
  {
    length + d > Times(RunLength(cs, i), fs.BytesPerCluster()) && i + PassClusters(fs, cs, i, d, length) >= |cs|
  }

  /** Whether the outer loop, with `done` bytes transferred, ends without running out of clusters. Each
      pass compares with the whole length, not with what is left of it. */
  ghost predicate Completes(fs: Fs, cs: seq<nat>, i: nat, d: nat, done: nat, length: nat)
    requires i < |cs|
    decreases |cs| - i
  {
    var next := i + PassClusters(fs, cs, i, d, length);
    var now := done + PassBytes(fs, cs, i, d, length);
    if PassFails(fs, cs, i, d, length) then false
    else now == length || (i < next < |cs| && Completes(fs, cs, next, 0, now, length))
  }

  // ------------------------------------------------------------------ ranges

  /** Position in the chain, and offset in the cluster, of a byte of the file. */
  function Pos(fs: Fs, offset: nat): nat
  {
    if fs.BytesPerCluster() == 0 then 0 else offset / fs.BytesPerCluster()
  }

  function Off(fs: Fs, offset: nat): nat
  {
    if fs.BytesPerCluster() == 0 then 0 else offset % fs.BytesPerCluster()
  }

  lemma Position(fs: Fs, offset: nat)
    requires fs.Valid()
    ensures Pos(fs, offset) * fs.BytesPerCluster() + Off(fs, offset) == offset && Off(fs, offset) < fs.BytesPerCluster()
  {
    ClusterSize(fs);
    QuotientRemainder(offset, fs.BytesPerCluster());
  }

  /** The range `[offset, offset + length)` of the file lies in clusters that follow each other on the disk. */
  ghost predicate InOneRun(fs: Fs, cs: seq<nat>, offset: nat, length: nat)
    requires fs.Valid()
  {
    var i := Pos(fs, offset);
    i < |cs| && Off(fs, offset) + length <= Times(RunLength(cs, i), fs.BytesPerCluster())
  }

  /** The ranges that come out right: those in one run, and those that begin in the first sector of a cluster and end
      exactly where the chain jumps. */
  ghost predicate Fits(fs: Fs, cs: seq<nat>, offset: nat, length: nat)
    requires fs.Valid()
  {
    InOneRun(fs, cs, offset, length)
    || (SkipSectors(fs, Off(fs, offset)) == 0
        && exists j :: EndsAtJump(fs, cs, Pos(fs, offset), Off(fs, offset), length, j))
  }

  /** The range from position `i`, `d` bytes into the sector, ends exactly where the chain jumps: behind
      `j` clusters, with another cluster to come. */
  ghost predicate EndsAtJump(fs: Fs, cs: seq<nat>, i: nat, d: nat, length: nat, j: nat) {
    0 < j && i + j < |cs| && Times(j, fs.BytesPerCluster()) == length + d && cs[i + j] != cs[i + j - 1] + 1
  }

  /** Once more than the length is transferred the loop never ends well. */
  lemma {:induction false} TooMuch(fs: Fs, cs: seq<nat>, i: nat, done: nat, length: nat)
    requires i < |cs| && done > length
    ensures !Completes(fs, cs, i, 0, done, length)
    decreases |cs| - i
  {
    var next := i + PassClusters(fs, cs, i, 0, length);
    var now := done + PassBytes(fs, cs, i, 0, length);
    if i < next < |cs| {
      TooMuch(fs, cs, next, now, length);
    }
  }

  lemma TimesAdd(k: nat, n: nat, size: nat)
    ensures Times(k + n, size) == Times(k, size) + Times(n, size)
  {
    assert (k + n) * size == k * size + n * size;
  }

  lemma TimesOrder(x: nat, n: nat, size: nat)
    requires Times(x, size) < Times(n, size)
    ensures x < n
  {
    assert (n - x) * size == n * size - x * size;
    PositiveFactor(n - x, size);
  }

  /** A jump lies no less than the rest of the run away. */
  lemma JumpBehindRun(cs: seq<nat>, p: nat, x: nat)
    requires p < |cs| && 0 < x && p + x < |cs| && cs[p + x] != cs[p + x - 1] + 1
    ensures x >= RunLength(cs, p)
  {
    if x < RunLength(cs, p) {
      RunConsecutive(cs, p, x - 1);
    }
  }

  lemma RunEndsInJump(cs: seq<nat>, p: nat)
    requires p < |cs| && p + RunLength(cs, p) < |cs|
    ensures cs[p + RunLength(cs, p)] != cs[p + RunLength(cs, p) - 1] + 1
  {
    RunConsecutive(cs, p, RunLength(cs, p) - 1);
  }

  /** From a pass that starts behind `k` clusters, a jump that the range ends at completes the transfer. */
  lemma {:induction false} JumpCompletes(fs: Fs, cs: seq<nat>, i: nat, d: nat, k: nat, done: nat, length: nat, j: nat)
    requires fs.Valid() && EndsAtJump(fs, cs, i, d, length, j) && k < j
    requires done + d == Times(k, fs.BytesPerCluster()) && done > 0
    ensures Completes(fs, cs, i + k, 0, done, length)
    decreases j - k
  {
    hide RunLength, Times, Fs.BytesPerCluster;
    var bpc, p := fs.BytesPerCluster(), i + k;
    var n := RunLength(cs, p);
    TimesAdd(k, j - k, bpc);
    JumpBehindRun(cs, p, j - k);
    RunPositive(cs, p);
    TimesAdd(n, j - k - n, bpc);
    TimesAdd(k, n, bpc);
    if j - k > n {
      JumpCompletes(fs, cs, i, d, k + n, done + Times(n, bpc), length, j);
    }
  }

  lemma RunPositive(cs: seq<nat>, p: nat)
    requires p < |cs|
    ensures 1 <= RunLength(cs, p) <= |cs| - p
  {
  }

  /** The other way round: a later pass completes only at such a jump. */
  lemma {:induction false} CompletesAtJump(fs: Fs, cs: seq<nat>, i: nat, d: nat, k: nat, done: nat, length: nat)
    returns (j: nat)
    requires fs.Valid() && i + k < |cs| && 0 < done < length && done + d == Times(k, fs.BytesPerCluster())
    requires Completes(fs, cs, i + k, 0, done, length)
    ensures k < j && EndsAtJump(fs, cs, i, d, length, j)
    decreases |cs| - k
  {
    hide RunLength, Times, Fs.BytesPerCluster, Clusters;
    var bpc, p := fs.BytesPerCluster(), i + k;
    var n := RunLength(cs, p);
    RunPositive(cs, p);
    TimesAdd(k, n, bpc);
    var now, next := done + PassBytes(fs, cs, p, 0, length), p + PassClusters(fs, cs, p, 0, length);
    if now == length {
      RunEndsInJump(cs, p);
      j := k + n;
    } else {
      if now > length { TooMuch(fs, cs, next, now, length); }
      j := CompletesAtJump(fs, cs, i, d, k + n, now, length);
    }
  }

  /** Which transfers complete: those whose range fits in the first run of clusters, and those that end
      exactly where the chain jumps to a further cluster. Every other fragmented range fails. */
  lemma CompletesIff(fs: Fs, cs: seq<nat>, i: nat, d: nat, length: nat)
    requires fs.Valid() && i < |cs| && d < fs.BytesPerCluster() && length > 0
    ensures Completes(fs, cs, i, d, 0, length) <==>
      length + d <= Times(RunLength(cs, i), fs.BytesPerCluster()) || exists j :: EndsAtJump(fs, cs, i, d, length, j)
  {
    hide RunLength, Times, Fs.BytesPerCluster, Clusters;
    var bpc, n := fs.BytesPerCluster(), RunLength(cs, i);
    RunPositive(cs, i);
    TimesStep(0, n, bpc);
    if length + d > Times(n, bpc) {
      if exists j :: EndsAtJump(fs, cs, i, d, length, j) {
        var j :| EndsAtJump(fs, cs, i, d, length, j);
        TimesOrder(n, j, bpc);
        JumpCompletes(fs, cs, i, d, n, Times(n, bpc) - d, length, j);
      }
      if Completes(fs, cs, i, d, 0, length) {
        var j := CompletesAtJump(fs, cs, i, d, n, Times(n, bpc) - d, length);
      }
    }
  }

  // ------------------------------------------------------------------ the passes of a transfer

  datatype Request = Request(write: bool, address: nat, length: nat)

  /** One device request of `size` bytes at `from`. The `bytes` behind the first `rest` ones are bytes `to` and
      following of the transfer. */
  datatype Pass = Pass(from: nat, size: nat, rest: nat, to: nat, bytes: nat) {
    ghost predicate Valid() { rest + bytes <= size }
  }

  /** Sectors one pass transfers. */
  ghost function PassSectors(fs: Fs, cs: seq<nat>, i: nat, d: nat, length: nat): nat
    requires fs.Valid() && i < |cs|
  {
    if length + d <= Times(RunLength(cs, i), fs.BytesPerCluster()) then SectorsFor(fs, length + d)
    else Times(RunLength(cs, i), fs.sectorsPerCluster)
  }

  /** The sectors counted are enough for the bytes of the pass. */
  lemma PassFits(fs: Fs, cs: seq<nat>, i: nat, d: nat, length: nat)
    requires fs.Valid() && i < |cs| && d <= fs.bytesPerSector && d < fs.BytesPerCluster()
    ensures d + PassBytes(fs, cs, i, d, length) <= PassSectors(fs, cs, i, d, length) * fs.bytesPerSector
    ensures length > 0 ==> PassBytes(fs, cs, i, d, length) > 0
  {
    hide SectorsFor, RunLength, Times, Fs.BytesPerCluster;
    var n := RunLength(cs, i);
    SectorsEnough(fs, length + d);
    RunBounds(cs, i);
    TimesSectors(fs, n);
    TimesStep(0, n, fs.BytesPerCluster());
  }

  ghost predicate AllClusters(cs: seq<nat>) { forall i :: 0 <= i < |cs| ==> cs[i] >= 2 }

  /** The pass from chain position `i`, `offset` bytes into its cluster, with `done` bytes transferred before. */
  ghost function PassAt(fs: Fs, cs: seq<nat>, i: nat, offset: nat, done: nat, length: nat): (p: Pass)
    requires fs.Valid() && AllClusters(cs) && i < |cs| && offset < fs.BytesPerCluster()
    ensures p.Valid() && p.from + p.rest == ClusterAddress(fs, cs[i]) + offset && p.rest == RestOffset(fs, offset)
  {
    RestBelow(fs, offset);
    SectorAddress(fs, cs[i], offset);
    var d := RestOffset(fs, offset);
    PassFits(fs, cs, i, d, length);
    var from := fs.base + (fs.ClusterToSector(cs[i]) + SkipSectors(fs, offset)) * fs.bytesPerSector;
    Pass(from, PassSectors(fs, cs, i, d, length) * fs.bytesPerSector, d, done, PassBytes(fs, cs, i, d, length))
  }

  lemma PassParts(fs: Fs, cs: seq<nat>, i: nat, offset: nat, done: nat, length: nat)
    requires fs.Valid() && AllClusters(cs) && i < |cs| && offset < fs.BytesPerCluster()
    ensures var p, d := PassAt(fs, cs, i, offset, done, length), RestOffset(fs, offset);
      && p.from == fs.base + (fs.ClusterToSector(cs[i]) + SkipSectors(fs, offset)) * fs.bytesPerSector
      && p.size == PassSectors(fs, cs, i, d, length) * fs.bytesPerSector
      && p.rest == d && p.to == done && p.bytes == PassBytes(fs, cs, i, d, length)
  {
  }

  /** All passes from there to the end, good or bad: a transfer that fails has made those in front. */
  ghost function Passes(fs: Fs, cs: seq<nat>, i: nat, offset: nat, done: nat, length: nat): (ps: seq<Pass>)
    requires fs.Valid() && AllClusters(cs) && i < |cs| && offset < fs.BytesPerCluster()
    ensures if PassFails(fs, cs, i, RestOffset(fs, offset), length) then ps == []
            else |ps| > 0 && ps[0] == PassAt(fs, cs, i, offset, done, length)
    decreases |cs| - i
  {
    var p := PassAt(fs, cs, i, offset, done, length);
    var next := i + PassClusters(fs, cs, i, p.rest, length);
    if PassFails(fs, cs, i, p.rest, length) then []
    else if done + p.bytes == length || !(i < next < |cs|) then [p]
    else [p] + Passes(fs, cs, next, 0, done + p.bytes, length)
  }

  ghost function Requests(write: bool, ps: seq<Pass>): (rs: seq<Request>)
    ensures |rs| == |ps|
  {
    if ps == [] then [] else [Request(write, ps[0].from, ps[0].size)] + Requests(write, ps[1..])
  }

  /** Memory after one pass of `read`: the wanted bytes, or, when there is nothing to drop, every sector read. */
  function Loaded(disk: Store, m: Store, buffer: nat, p: Pass): Store
  {
    if p.rest != 0 then Put(m, buffer + p.to, Slice(disk, p.from + p.rest, p.bytes))
    else Put(m, buffer + p.to, Slice(disk, p.from, p.size))
  }

  /** The same from the bytes that the request returned, at the place in memory where the pass begins. */
  lemma LoadedIs(disk: Store, m: Store, buffer: nat, p: Pass, data: seq<byte>)
    requires p.Valid() && data == Slice(disk, p.from, p.size)
    ensures Loaded(disk, m, buffer, p)
         == Put(m, buffer + p.to, if p.rest != 0 then data[p.rest..p.rest + p.bytes] else data)
  {
    hide Put, ByteAt;
    var part := Slice(disk, p.from + p.rest, p.bytes);
    assert data[p.rest..p.rest + p.bytes] == part;
  }

  ghost function ReadBack(disk: Store, m: Store, buffer: nat, ps: seq<Pass>): Store
    decreases |ps|
  {
    if ps == [] then m else ReadBack(disk, Loaded(disk, m, buffer, ps[0]), buffer, ps[1..])
  }

  /** The disk after one pass of `write`. */
  function Stored(m: Store, disk: Store, buffer: nat, p: Pass): Store
  {
    Put(disk, p.from, Slice(m, buffer + p.to, p.size))
  }

  ghost function WriteOut(m: Store, disk: Store, buffer: nat, ps: seq<Pass>): Store
    decreases |ps|
  {
    if ps == [] then disk else WriteOut(m, Stored(m, disk, buffer, ps[0]), buffer, ps[1..])
  }

  /** How the passes go on, whether or not they complete. */
  lemma PassesNext(fs: Fs, cs: seq<nat>, i: nat, offset: nat, done: nat, length: nat)
    requires fs.Valid() && AllClusters(cs) && i < |cs| && offset < fs.BytesPerCluster()
    ensures var ps, p := Passes(fs, cs, i, offset, done, length), PassAt(fs, cs, i, offset, done, length);
      var next, now := i + PassClusters(fs, cs, i, p.rest, length), done + p.bytes;
      && i < next && p.to == done && p.rest == RestOffset(fs, offset) && p.bytes == PassBytes(fs, cs, i, p.rest, length)
      && ps == if PassFails(fs, cs, i, p.rest, length) then []
               else if now == length || next >= |cs| then [p]
               else [p] + Passes(fs, cs, next, 0, now, length)
    ensures RestOffset(fs, 0) == 0 && SkipSectors(fs, 0) == 0
  {
    hide PassAt, PassFails, PassClusters, PassBytes, PassSectors, Fs.BytesPerCluster, ClusterAddress;
    PassParts(fs, cs, i, offset, done, length);
    PassGoesOn(fs, cs, i, RestOffset(fs, offset), length);
  }

  lemma PassGoesOn(fs: Fs, cs: seq<nat>, i: nat, d: nat, length: nat)
    requires i < |cs|
    ensures PassClusters(fs, cs, i, d, length) > 0
  {
    hide RunLength, Times, Fs.BytesPerCluster, Clusters;
    RunPositive(cs, i);
    ClustersPositive(fs, length + d);
  }

  lemma ClustersPositive(fs: Fs, bytes: nat)
    ensures Clusters(fs, bytes) > 0
  {
  }

  /** How they go on when they complete. */
  lemma PassesStep(fs: Fs, cs: seq<nat>, i: nat, offset: nat, done: nat, length: nat)
    requires fs.Valid() && AllClusters(cs) && i < |cs| && offset < fs.BytesPerCluster()
    requires Completes(fs, cs, i, RestOffset(fs, offset), done, length)
    ensures var ps, p := Passes(fs, cs, i, offset, done, length), PassAt(fs, cs, i, offset, done, length);
      var next := i + PassClusters(fs, cs, i, p.rest, length);
      && p.to == done && p.bytes == PassBytes(fs, cs, i, p.rest, length)
      && p.size == PassSectors(fs, cs, i, p.rest, length) * fs.bytesPerSector
      && (if done + p.bytes == length then ps == [p]
          else i < next < |cs| && Completes(fs, cs, next, 0, done + p.bytes, length)
               && ps == [p] + Passes(fs, cs, next, 0, done + p.bytes, length))
    ensures RestOffset(fs, 0) == 0
  {
  }

  /** What a pass in the middle of a transfer that completes must be: exactly one whole run. */
  lemma MiddlePass(fs: Fs, cs: seq<nat>, i: nat, done: nat, length: nat)
    requires fs.Valid() && AllClusters(cs) && i < |cs| && 0 < done < length && Completes(fs, cs, i, 0, done, length)
    ensures fs.BytesPerCluster() > 0
    ensures var p, n := PassAt(fs, cs, i, 0, done, length), RunLength(cs, i);
      && length > Times(n, fs.BytesPerCluster()) && PassClusters(fs, cs, i, 0, length) == n
      && p.from == ClusterAddress(fs, cs[i]) && p.rest == 0 && p.size == p.bytes == Times(n, fs.BytesPerCluster())
      && done + p.bytes <= length
  {
    hide RunLength, Times, Fs.BytesPerCluster, Clusters, ClusterAddress, SectorsFor;
    ClusterSize(fs);
    PassesStep(fs, cs, i, 0, done, length);
    TimesSectors(fs, RunLength(cs, i));
    var p := PassAt(fs, cs, i, 0, done, length);
    if done + p.bytes > length {
      TooMuch(fs, cs, i + PassClusters(fs, cs, i, 0, length), done + p.bytes, length);
    }
  }

  // ------------------------------------------------------------------ reading

  /** A pass of `read` writes address `a`. */
  ghost predicate Fills(p: Pass, buffer: nat, a: nat) {
    buffer + p.to <= a < buffer + p.to + if p.rest != 0 then p.bytes else p.size
  }

  lemma LoadedByte(disk: Store, m: Store, buffer: nat, p: Pass, a: nat)
    ensures ByteAt(Loaded(disk, m, buffer, p), a)
         == if Fills(p, buffer, a) then ByteAt(disk, p.from + p.rest + (a - buffer - p.to)) else ByteAt(m, a)
  {
    hide ByteAt, Put, Slice, Loaded;
    LoadedParts(disk, m, buffer, p);
    PutSlice(m, buffer + p.to, disk, p.from + p.rest, if p.rest != 0 then p.bytes else p.size, a);
  }

  lemma LoadedParts(disk: Store, m: Store, buffer: nat, p: Pass)
    ensures Loaded(disk, m, buffer, p)
         == Put(m, buffer + p.to, Slice(disk, p.from + p.rest, if p.rest != 0 then p.bytes else p.size))
  {
    hide Put, Slice, ByteAt;
  }

  /** The bytes of a pass are among those it writes. */
  lemma FillsBytes(p: Pass, buffer: nat, a: nat)
    requires p.Valid() && a < buffer + p.to + p.bytes
    ensures Fills(p, buffer, a) <==> buffer + p.to <= a
  {
  }

  /** A byte of one store after bytes of another were copied into it. */
  lemma PutSlice(m: Store, at: nat, source: Store, from: nat, n: nat, a: nat)
    ensures ByteAt(Put(m, at, Slice(source, from, n)), a)
      == if at <= a < at + n then ByteAt(source, from + (a - at)) else ByteAt(m, a)
  {
    hide ByteAt, Slice;
    var s := Slice(source, from, n);
    if at <= a < at + n {
      assert s[a - at] == ByteAt(source, from + (a - at));
    }
  }

  /** Some pass writes address `a`. */
  ghost predicate Filled(ps: seq<Pass>, buffer: nat, a: nat) { exists x :: 0 <= x < |ps| && Fills(ps[x], buffer, a) }

  lemma FilledStep(ps: seq<Pass>, buffer: nat, a: nat)
    ensures Filled(ps, buffer, a) <==> ps != [] && (Fills(ps[0], buffer, a) || Filled(ps[1..], buffer, a))
  {
    hide Fills;
    if ps != [] {
      var rest := ps[1..];
      if x :| 0 <= x < |rest| && Fills(rest[x], buffer, a) {
        assert Fills(ps[x + 1], buffer, a);
      }
      if x :| 0 < x < |ps| && Fills(ps[x], buffer, a) {
        assert Fills(rest[x - 1], buffer, a);
      }
    }
  }

  /** Memory keeps what no pass writes; a byte that is written comes from the disk, from where pass `x` has it. */
  lemma {:induction false} ReadBackByte(disk: Store, m: Store, buffer: nat, ps: seq<Pass>, a: nat) returns (x: nat)
    ensures x < |ps| <==> Filled(ps, buffer, a)
    ensures x < |ps| ==>
      && Fills(ps[x], buffer, a)
      && ByteAt(ReadBack(disk, m, buffer, ps), a) == ByteAt(disk, ps[x].from + ps[x].rest + (a - buffer - ps[x].to))
    ensures x >= |ps| ==> ByteAt(ReadBack(disk, m, buffer, ps), a) == ByteAt(m, a)
    decreases |ps|
  {
    hide ByteAt, Loaded, Filled, Fills;
    x := |ps|;
    FilledStep(ps, buffer, a);
    if ps != [] {
      LoadedByte(disk, m, buffer, ps[0], a);
      var y := ReadBackByte(disk, Loaded(disk, m, buffer, ps[0]), buffer, ps[1..], a);
      x := if y < |ps| - 1 then y + 1 else if Fills(ps[0], buffer, a) then 0 else |ps|;
    }
  }

  /** Later passes leave what earlier ones put in the buffer. */
  lemma {:induction false} EarlierKept(fs: Fs, disk: Store, m: Store, buffer: nat, cs: seq<nat>,
                                       i: nat, done: nat, length: nat, a: nat)
    requires fs.Valid() && AllClusters(cs) && i < |cs| && 0 < done < length && Completes(fs, cs, i, 0, done, length)
    requires a < buffer + done
    ensures fs.BytesPerCluster() > 0
    ensures ByteAt(ReadBack(disk, m, buffer, Passes(fs, cs, i, 0, done, length)), a) == ByteAt(m, a)
    decreases |cs| - i
  {
    hide Completes, Passes, PassAt, Loaded, ByteAt, PassClusters, PassBytes, Fs.BytesPerCluster, Fills;
    ClusterSize(fs);
    PassesStep(fs, cs, i, 0, done, length);
    var ps, p := Passes(fs, cs, i, 0, done, length), PassAt(fs, cs, i, 0, done, length);
    MiddlePass(fs, cs, i, done, length);
    var m' := Loaded(disk, m, buffer, p);
    LoadedByte(disk, m, buffer, p, a);
    FillsBytes(p, buffer, a);
    assert ps[1..] == if done + p.bytes == length then []
      else Passes(fs, cs, i + PassClusters(fs, cs, i, 0, length), 0, done + p.bytes, length);
    if done + p.bytes < length {
      EarlierKept(fs, disk, m', buffer, cs, i + PassClusters(fs, cs, i, 0, length), done + p.bytes, length, a);
    }
  }

  /** Where a pass gets its bytes from, right or wrong. */
  lemma PassBytesFrom(fs: Fs, disk: Store, m: Store, buffer: nat, cs: seq<nat>,
                      i: nat, offset: nat, done: nat, length: nat, k: nat)
    requires fs.Valid() && AllClusters(cs) && i < |cs| && offset < fs.BytesPerCluster() && done < length
    requires Completes(fs, cs, i, RestOffset(fs, offset), done, length)
    requires k < PassBytes(fs, cs, i, RestOffset(fs, offset), length)
    ensures ByteAt(ReadBack(disk, m, buffer, Passes(fs, cs, i, offset, done, length)), buffer + done + k)
         == ByteAt(disk, ClusterAddress(fs, cs[i]) + offset + k)
  {
    hide Completes, PassAt, Loaded, ByteAt, PassClusters, PassBytes, Fs.BytesPerCluster, RestOffset, ClusterAddress,
      Fills, Passes, PassFails;
    PassesStep(fs, cs, i, offset, done, length);
    var ps, p := Passes(fs, cs, i, offset, done, length), PassAt(fs, cs, i, offset, done, length);
    LoadedByte(disk, m, buffer, p, buffer + done + k);
    FillsBytes(p, buffer, buffer + done + k);
    var next := i + PassClusters(fs, cs, i, p.rest, length);
    assert ps[1..] == if done + p.bytes == length then [] else Passes(fs, cs, next, 0, done + p.bytes, length);
    if done + p.bytes != length {
      if done + p.bytes > length {
        TooMuch(fs, cs, next, done + p.bytes, length);
      }
      EarlierKept(fs, disk, Loaded(disk, m, buffer, p), buffer, cs, next, done + p.bytes, length, buffer + done + k);
    }
  }

  /** A pass that starts in the first sector of its cluster, or whose whole range lies in its run, stays in its run. */
  lemma PassInRun(fs: Fs, cs: seq<nat>, i: nat, offset: nat, length: nat)
    requires fs.Valid() && i < |cs| && offset < fs.BytesPerCluster()
    requires SkipSectors(fs, offset) == 0 || offset + length <= Times(RunLength(cs, i), fs.BytesPerCluster())
    ensures offset + PassBytes(fs, cs, i, RestOffset(fs, offset), length)
         <= Times(RunLength(cs, i), fs.BytesPerCluster())
    ensures length + RestOffset(fs, offset) > Times(RunLength(cs, i), fs.BytesPerCluster()) ==>
      && offset + PassBytes(fs, cs, i, RestOffset(fs, offset), length) == Times(RunLength(cs, i), fs.BytesPerCluster())
      && PassClusters(fs, cs, i, RestOffset(fs, offset), length) == RunLength(cs, i)
  {
    hide RunLength, Times, Fs.BytesPerCluster, SkipSectors, RestOffset, Clusters;
    RestBelow(fs, offset);
    SplitOffset(fs, offset);
    RunPositive(cs, i);
    TimesStep(0, RunLength(cs, i), fs.BytesPerCluster());
  }

  /** Such a transfer delivers every byte of its range of the file. */
  lemma {:induction false} DeliversByte(fs: Fs, disk: Store, m: Store, buffer: nat, cs: seq<nat>,
                                        i: nat, offset: nat, done: nat, length: nat, start: nat, x: nat)
    requires fs.Valid() && AllClusters(cs) && i < |cs| && offset < fs.BytesPerCluster() && done <= x < length
    requires Completes(fs, cs, i, RestOffset(fs, offset), done, length)
    requires start + done == Times(i, fs.BytesPerCluster()) + offset
    requires SkipSectors(fs, offset) == 0 || offset + length <= Times(RunLength(cs, i), fs.BytesPerCluster())
    ensures start + x < |Concatenated(fs, disk, cs)|
    ensures ByteAt(ReadBack(disk, m, buffer, Passes(fs, cs, i, offset, done, length)), buffer + x)
         == Concatenated(fs, disk, cs)[start + x]
    decreases |cs| - i
  {
    hide Completes, PassAt, Loaded, ByteAt, PassClusters, PassBytes, Fs.BytesPerCluster, RestOffset, ClusterAddress,
      Concatenated, RunLength, Times, SkipSectors, Passes;
    var bpc, d := fs.BytesPerCluster(), RestOffset(fs, offset);
    PassInRun(fs, cs, i, offset, length);
    PassesStep(fs, cs, i, offset, done, length);
    var ps, p := Passes(fs, cs, i, offset, done, length), PassAt(fs, cs, i, offset, done, length);
    TimesIs(RunLength(cs, i), bpc);
    TimesIs(i, bpc);
    if x < done + p.bytes {
      PassBytesFrom(fs, disk, m, buffer, cs, i, offset, done, length, x - done);
      RunByte(fs, disk, cs, i, offset + (x - done));
    } else {
      var next := i + PassClusters(fs, cs, i, d, length);
      NextPassStart(fs, cs, i, offset, done, length);
      SplitOffset(fs, 0);
      assert ps[1..] == Passes(fs, cs, next, 0, done + p.bytes, length);
      DeliversByte(fs, disk, Loaded(disk, m, buffer, p), buffer, cs, next, 0, done + p.bytes, length, start, x);
    }
  }

  /** The pass after one that stays in its run starts with the byte of the file that is due. */
  lemma NextPassStart(fs: Fs, cs: seq<nat>, i: nat, offset: nat, done: nat, length: nat)
    requires fs.Valid() && i < |cs| && offset < fs.BytesPerCluster()
    requires SkipSectors(fs, offset) == 0 || offset + length <= Times(RunLength(cs, i), fs.BytesPerCluster())
    requires done + PassBytes(fs, cs, i, RestOffset(fs, offset), length) < length
    ensures var next := i + PassClusters(fs, cs, i, RestOffset(fs, offset), length);
      Times(next, fs.BytesPerCluster())
        == Times(i, fs.BytesPerCluster()) + offset + PassBytes(fs, cs, i, RestOffset(fs, offset), length)
    ensures SkipSectors(fs, 0) == 0 && fs.BytesPerCluster() > 0
  {
    hide RunLength, Times, Fs.BytesPerCluster, RestOffset, PassClusters;
    PassInRun(fs, cs, i, offset, length);
    TimesAdd(i, RunLength(cs, i), fs.BytesPerCluster());
  }

  /** The passes of a range. */
  ghost function RangePasses(fs: Fs, cs: seq<nat>, offset: nat, length: nat): seq<Pass>
    requires fs.Valid() && AllClusters(cs) && Pos(fs, offset) < |cs|
  {
    Position(fs, offset);
    Passes(fs, cs, Pos(fs, offset), Off(fs, offset), 0, length)
  }

  /** The bytes that `read` leaves in the buffer are those of the range. */
  ghost predicate Delivers(fs: Fs, cs: seq<nat>, offset: nat, length: nat, disk: Store, m: Store, buffer: nat)
    requires fs.Valid() && AllClusters(cs) && Pos(fs, offset) < |cs|
  {
    var whole := Concatenated(fs, disk, cs);
    var got := ReadBack(disk, m, buffer, RangePasses(fs, cs, offset, length));
    offset + length <= |whole| && Slice(got, buffer, length) == whole[offset..offset + length]
  }

  ghost predicate RangeCompletes(fs: Fs, cs: seq<nat>, offset: nat, length: nat)
    requires fs.Valid() && Pos(fs, offset) < |cs|
  {
    Completes(fs, cs, Pos(fs, offset), RestOffset(fs, Off(fs, offset)), 0, length)
  }

  lemma FitsDelivers(fs: Fs, cs: seq<nat>, offset: nat, length: nat, disk: Store, m: Store, buffer: nat)
    requires fs.Valid() && AllClusters(cs) && Pos(fs, offset) < |cs| && length > 0
    requires Fits(fs, cs, offset, length) && RangeCompletes(fs, cs, offset, length)
    ensures Delivers(fs, cs, offset, length, disk, m, buffer)
  {
    hide Completes, Passes, ByteAt, Slice, Fs.BytesPerCluster, RestOffset, Concatenated, RunLength, Times, SkipSectors,
      Pos, Off, EndsAtJump, ReadBack;
    Position(fs, offset);
    var i, o, whole := Pos(fs, offset), Off(fs, offset), Concatenated(fs, disk, cs);
    TimesIs(i, fs.BytesPerCluster());
    var got := Slice(ReadBack(disk, m, buffer, Passes(fs, cs, i, o, 0, length)), buffer, length);
    forall x: nat | x < length
      ensures offset + x < |whole| && got[x] == whole[offset + x]
    {
      DeliversByte(fs, disk, m, buffer, cs, i, o, 0, length, offset, x);
    }
    DeliversByte(fs, disk, m, buffer, cs, i, o, 0, length, offset, length - 1);
    assert got == whole[offset..offset + length];
  }

  /** Fitting ranges complete. */
  lemma FitsCompletes(fs: Fs, cs: seq<nat>, offset: nat, length: nat)
    requires fs.Valid() && Pos(fs, offset) < |cs| && length > 0 && Fits(fs, cs, offset, length)
    ensures RangeCompletes(fs, cs, offset, length)
  {
    hide Completes, RestOffset, SkipSectors, Fs.BytesPerCluster, Pos, Off, EndsAtJump, RunLength, Times;
    var o := Off(fs, offset);
    ClusterSize(fs);
    Position(fs, offset);
    RestBelow(fs, o);
    SplitOffset(fs, o);
    CompletesIff(fs, cs, Pos(fs, offset), RestOffset(fs, o), length);
  }

  lemma ClustersApart(fs: Fs, a: nat, b: nat)
    requires 2 <= a < b
    ensures ClusterAddress(fs, a) + fs.BytesPerCluster() <= ClusterAddress(fs, b)
  {
    hide Fs.BytesPerCluster, ClusterAddress;
    SectorShift(fs, a, b - a);
    ProductAtLeast(b - a, fs.BytesPerCluster());
  }

  /** A transfer that completes without fitting runs on past the end of its first run: byte `k` of it, which should be
      the first one of the next cluster of the chain, is the first one of the next cluster of the disk. */
  lemma RunsPast(fs: Fs, cs: seq<nat>, offset: nat, length: nat) returns (k: nat)
    requires fs.Valid() && AllClusters(cs) && Pos(fs, offset) < |cs| && length > 0
    requires RangeCompletes(fs, cs, offset, length) && !Fits(fs, cs, offset, length)
    ensures var i, o := Pos(fs, offset), Off(fs, offset);
      var n := RunLength(cs, i);
      && k < length && k < PassBytes(fs, cs, i, RestOffset(fs, o), length) && SkipSectors(fs, o) > 0
      && o + k == Times(n, fs.BytesPerCluster()) && offset + k == Times(i + n, fs.BytesPerCluster())
      && ClusterAddress(fs, cs[i]) + o + k == ClusterAddress(fs, cs[i] + n)
      && i + n <= |cs| && (i + n < |cs| ==> cs[i + n] != cs[i] + n)
  {
    hide Completes, RestOffset, SkipSectors, Fs.BytesPerCluster, Pos, Off, EndsAtJump, RunLength, Times, ClusterAddress;
    var i, o := Pos(fs, offset), Off(fs, offset);
    var n, bpc := RunLength(cs, i), fs.BytesPerCluster();
    ClusterSize(fs);
    Position(fs, offset);
    RestBelow(fs, o);
    SplitOffset(fs, o);
    RunPositive(cs, i);
    CompletesIff(fs, cs, i, RestOffset(fs, o), length);
    TimesStep(0, n, bpc);
    TimesAdd(i, n, bpc);
    TimesIs(i, bpc);
    TimesIs(n, bpc);
    SectorShift(fs, cs[i], n);
    RunConsecutive(cs, i, n - 1);
    k := Times(n, bpc) - o;
  }

  lemma CompletesRange(fs: Fs, cs: seq<nat>, offset: nat, length: nat)
    requires fs.Valid() && Pos(fs, offset) < |cs| && RangeCompletes(fs, cs, offset, length)
    ensures Completes(fs, cs, Pos(fs, offset), RestOffset(fs, Off(fs, offset)), 0, length)
  {
  }

  lemma SingleByte(a: nat, x: nat)
    ensures ByteAt(map[a := 1], x) == if x == a then 1 else 0
  {
  }

  lemma TooShort(fs: Fs, cs: seq<nat>, offset: nat, length: nat, disk: Store, m: Store, buffer: nat)
    requires fs.Valid() && AllClusters(cs) && Pos(fs, offset) < |cs| && offset + length > |Concatenated(fs, disk, cs)|
    ensures !Delivers(fs, cs, offset, length, disk, m, buffer)
  {
    hide Concatenated, Pos, ReadBack, Slice, RangePasses;
  }

  /** One wrong byte is enough. */
  lemma WrongByte(fs: Fs, cs: seq<nat>, offset: nat, length: nat, disk: Store, m: Store, buffer: nat, k: nat)
    requires fs.Valid() && AllClusters(cs) && Pos(fs, offset) < |cs| && k < length
    requires offset + k < |Concatenated(fs, disk, cs)|
    requires ByteAt(ReadBack(disk, m, buffer, RangePasses(fs, cs, offset, length)), buffer + k)
          != Concatenated(fs, disk, cs)[offset + k]
    ensures !Delivers(fs, cs, offset, length, disk, m, buffer)
  {
    hide Fs.BytesPerCluster, Concatenated, Pos, ReadBack, ByteAt, Slice, RangePasses;
    var whole := Concatenated(fs, disk, cs);
    var got := ReadBack(disk, m, buffer, RangePasses(fs, cs, offset, length));
    if offset + length <= |whole| {
      assert Slice(got, buffer, length)[k] == ByteAt(got, buffer + k);
      assert whole[offset..offset + length][k] == whole[offset + k];
    }
  }

  /** The passes of a range start at its first byte. */
  lemma RangeIs(fs: Fs, cs: seq<nat>, offset: nat, length: nat)
    requires fs.Valid() && AllClusters(cs) && Pos(fs, offset) < |cs|
    ensures Off(fs, offset) < fs.BytesPerCluster()
    ensures RangePasses(fs, cs, offset, length) == Passes(fs, cs, Pos(fs, offset), Off(fs, offset), 0, length)
  {
    Position(fs, offset);
  }

  /** Outside the fitting ranges some disk contents show the difference. */
  lemma CrossingRead(fs: Fs, cs: seq<nat>, offset: nat, length: nat, m: Store, buffer: nat) returns (disk: Store)
    requires fs.Valid() && AllClusters(cs) && Pos(fs, offset) < |cs| && length > 0
    requires RangeCompletes(fs, cs, offset, length) && !Fits(fs, cs, offset, length)
    ensures !Delivers(fs, cs, offset, length, disk, m, buffer)
  {
    hide Completes, Passes, Slice, Fs.BytesPerCluster, RestOffset, Concatenated, RunLength, Times, SkipSectors,
      Pos, Off, Fits, ReadBack, ClusterAddress, ByteAt, RangeCompletes, PassBytes, RangePasses, Delivers;
    Position(fs, offset);
    ClusterSize(fs);
    var i, o := Pos(fs, offset), Off(fs, offset);
    var k := RunsPast(fs, cs, offset, length);
    var n := RunLength(cs, i);
    TimesIs(i + n, fs.BytesPerCluster());
    if i + n == |cs| {
      disk := map[];
      ConcatenatedByte(fs, disk, cs, 0, 0);
      TooShort(fs, cs, offset, length, disk, m, buffer);
    } else {
      disk := map[ClusterAddress(fs, cs[i + n]) := 1];
      if cs[i + n] < cs[i] + n {
        ClustersApart(fs, cs[i + n], cs[i] + n);
      } else {
        ClustersApart(fs, cs[i] + n, cs[i + n]);
      }
      SingleByte(ClusterAddress(fs, cs[i + n]), ClusterAddress(fs, cs[i + n]));
      SingleByte(ClusterAddress(fs, cs[i + n]), ClusterAddress(fs, cs[i] + n));
      CompletesRange(fs, cs, offset, length);
      PassBytesFrom(fs, disk, m, buffer, cs, i, o, 0, length, k);
      ConcatenatedByte(fs, disk, cs, i + n, 0);
      RangeIs(fs, cs, offset, length);
      WrongByte(fs, cs, offset, length, disk, m, buffer, k);
    }
  }

  /** `read` delivers the bytes of the file, whatever the disk holds, exactly for the fitting ranges. */
  lemma ReadExact(fs: Fs, cs: seq<nat>, offset: nat, length: nat)
    requires fs.Valid() && AllClusters(cs) && Pos(fs, offset) < |cs| && length > 0
    ensures (RangeCompletes(fs, cs, offset, length)
             && forall disk: Store, m: Store, buffer: nat :: Delivers(fs, cs, offset, length, disk, m, buffer))
       <==> Fits(fs, cs, offset, length)
  {
    hide RangeCompletes, Delivers, Fits, Pos;
    if Fits(fs, cs, offset, length) {
      FitsCompletes(fs, cs, offset, length);
      forall disk: Store, m: Store, buffer: nat
        ensures Delivers(fs, cs, offset, length, disk, m, buffer)
      {
        FitsDelivers(fs, cs, offset, length, disk, m, buffer);
      }
    } else if RangeCompletes(fs, cs, offset, length) {
      var disk := CrossingRead(fs, cs, offset, length, map[], 0);
    }
  }

  // ------------------------------------------------------------------ writing

  /** A device request of the passes covers address `a`. */
  ghost predicate Touched(ps: seq<Pass>, a: nat) { exists x :: 0 <= x < |ps| && Covers(ps[x], a) }

  ghost predicate Covers(p: Pass, a: nat) { p.from <= a < p.from + p.size }

  /** The disk keeps what no pass covers; a covered byte comes from the buffer, from where pass `x` has it. */
  lemma {:induction false} WriteOutByte(m: Store, disk: Store, buffer: nat, ps: seq<Pass>, a: nat) returns (x: nat)
    ensures x < |ps| <==> Touched(ps, a)
    ensures x < |ps| ==>
      Covers(ps[x], a) && ByteAt(WriteOut(m, disk, buffer, ps), a) == ByteAt(m, buffer + ps[x].to + (a - ps[x].from))
    ensures x >= |ps| ==> ByteAt(WriteOut(m, disk, buffer, ps), a) == ByteAt(disk, a)
    decreases |ps|
  {
    hide ByteAt, Stored, Touched;
    x := |ps|;
    TouchedStep(ps, a);
    if ps != [] {
      var disk', rest := Stored(m, disk, buffer, ps[0]), ps[1..];
      StoredByte(m, disk, buffer, ps[0], a);
      var y := WriteOutByte(m, disk', buffer, rest, a);
      x := if y < |rest| then y + 1 else if Covers(ps[0], a) then 0 else |ps|;
    }
  }

  lemma StoredIs(m: Store, disk: Store, buffer: nat, p: Pass)
    ensures Stored(m, disk, buffer, p) == Put(disk, p.from, Slice(m, buffer + p.to, p.size))
  {
    hide Put, Slice, ByteAt;
  }

  lemma StoredByte(m: Store, disk: Store, buffer: nat, p: Pass, a: nat)
    ensures ByteAt(Stored(m, disk, buffer, p), a)
      == if Covers(p, a) then ByteAt(m, buffer + p.to + (a - p.from)) else ByteAt(disk, a)
  {
    hide ByteAt, Put, Slice, Stored;
    StoredIs(m, disk, buffer, p);
    PutSlice(disk, p.from, m, buffer + p.to, p.size, a);
  }

  lemma TouchedStep(ps: seq<Pass>, a: nat)
    ensures Touched(ps, a) <==> ps != [] && (Covers(ps[0], a) || Touched(ps[1..], a))
  {
    hide Covers;
    if ps != [] {
      var rest := ps[1..];
      if x :| 0 <= x < |rest| && Covers(rest[x], a) {
        assert Covers(ps[x + 1], a);
      }
      if x :| 0 < x < |ps| && Covers(ps[x], a) {
        assert Covers(rest[x - 1], a);
      }
    }
  }

  /** Address `a` lies in cluster number `q` of the chain. */
  ghost predicate InCluster(fs: Fs, cs: seq<nat>, q: nat, a: nat)
    requires AllClusters(cs)
  {
    q < |cs| && ClusterAddress(fs, cs[q]) <= a < ClusterAddress(fs, cs[q]) + fs.BytesPerCluster()
  }

  ghost predicate InChain(fs: Fs, cs: seq<nat>, a: nat)
    requires AllClusters(cs)
  {
    exists q: nat :: InCluster(fs, cs, q, a)
  }

  /** An address inside a run lies in one of its clusters. */
  lemma RunCluster(fs: Fs, cs: seq<nat>, i: nat, k: nat) returns (q: nat)
    requires fs.Valid() && AllClusters(cs) && i < |cs| && k < Times(RunLength(cs, i), fs.BytesPerCluster())
    ensures i <= q < i + RunLength(cs, i) <= |cs| && InCluster(fs, cs, q, ClusterAddress(fs, cs[i]) + k)
    ensures Times(q, fs.BytesPerCluster()) + (ClusterAddress(fs, cs[i]) + k - ClusterAddress(fs, cs[q]))
         == Times(i, fs.BytesPerCluster()) + k
  {
    hide RunLength, Times, Fs.BytesPerCluster, ClusterAddress;
    ClusterSize(fs);
    var bpc, n := fs.BytesPerCluster(), RunLength(cs, i);
    TimesIs(n, bpc);
    QuotientRemainder(k, bpc);
    QuotientBelow(k, bpc, n);
    RunBounds(cs, i);
    RunConsecutive(cs, i, k / bpc);
    SectorShift(fs, cs[i], k / bpc);
    TimesAdd(i, k / bpc, bpc);
    TimesIs(k / bpc, bpc);
    q := i + k / bpc;
  }

  /** The sectors for so many bytes are no more than any number of whole sectors that hold them. */
  lemma SectorsWithin(fs: Fs, length: nat, sectors: nat)
    requires fs.bytesPerSector > 0 && sectors > 0 && length <= Times(sectors, fs.bytesPerSector)
    ensures SectorsFor(fs, length) * fs.bytesPerSector <= Times(sectors, fs.bytesPerSector)
  {
    hide SectorsFor, Times;
    var s, bps := SectorsFor(fs, length), fs.bytesPerSector;
    SectorsEnough(fs, length);
    TimesIs(s, bps);
    if s > sectors {
      TimesStep(sectors, s, bps);
      Distribute(s - 1, 1, bps);
      if s - 1 > sectors {
        TimesStep(sectors, s - 1, bps);
      }
      TimesIs(s - 1, bps);
      SectorsPositive(fs, length);
    } else if s < sectors {
      TimesStep(s, sectors, bps);
    }
  }

  lemma SectorsPositive(fs: Fs, length: nat)
    requires fs.bytesPerSector > 0
    ensures SectorsFor(fs, length) > 0 && (length == 0 ==> SectorsFor(fs, length) == 1)
  {
  }

  /** How far a sector-aligned pass reaches into its run, or past it. */
  lemma PassReach(fs: Fs, cs: seq<nat>, i: nat, offset: nat, done: nat, length: nat)
    requires fs.Valid() && AllClusters(cs) && i < |cs| && offset < fs.BytesPerCluster() && length > 0
    requires RestOffset(fs, offset) == 0
    ensures var p, fit := PassAt(fs, cs, i, offset, done, length), Times(RunLength(cs, i), fs.BytesPerCluster());
      && p.from == ClusterAddress(fs, cs[i]) + offset && p.size <= fit
      && (SkipSectors(fs, offset) == 0 ==> offset == 0)
      && (offset + p.size <= fit <==> offset + length <= fit || SkipSectors(fs, offset) == 0)
  {
    hide SectorsFor, RunLength, Times, Fs.BytesPerCluster, SkipSectors, RestOffset, ClusterAddress;
    var n, bps, bpc := RunLength(cs, i), fs.bytesPerSector, fs.BytesPerCluster();
    var skip, fit, whole := SkipSectors(fs, offset), Times(n, bpc), Times(n, fs.sectorsPerCluster);
    RunPositive(cs, i);
    TimesStep(0, n, bpc);
    TimesSectors(fs, n);
    TimesIs(whole, bps);
    SplitOffset(fs, offset);
    SectorsEnough(fs, length);
    TimesIs(skip, bps);
    TimesIs(whole, bps);
    PassFits(fs, cs, i, 0, length);
    if length <= fit {
      SectorsWithin(fs, length, whole);
      if offset + length <= fit {
        TimesOrder(skip, whole, bps);
        TimesAdd(skip, whole - skip, bps);
        SectorsWithin(fs, length, whole - skip);
      }
    }
  }

  /** The passes behind the first one cover later clusters of the chain only. */
  lemma {:induction false} LaterPasses(fs: Fs, cs: seq<nat>, i: nat, done: nat, length: nat, a: nat) returns (q: nat)
    requires fs.Valid() && AllClusters(cs) && i < |cs| && length > 0 && fs.BytesPerCluster() > 0
    requires Touched(Passes(fs, cs, i, 0, done, length), a)
    ensures i <= q && InCluster(fs, cs, q, a)
    decreases |cs| - i
  {
    hide PassAt, PassClusters, PassBytes, PassFails, Fs.BytesPerCluster, Times, RunLength, ClusterAddress, InCluster,
      Touched, Passes;
    PassesNext(fs, cs, i, 0, done, length);
    PassReach(fs, cs, i, 0, done, length);
    var ps, p := Passes(fs, cs, i, 0, done, length), PassAt(fs, cs, i, 0, done, length);
    TouchedStep(ps, a);
    if Covers(p, a) {
      q := RunCluster(fs, cs, i, a - p.from);
    } else {
      var next := i + PassClusters(fs, cs, i, 0, length);
      TouchedStep(ps[1..], a);
      assert ps[1..] == Passes(fs, cs, next, 0, done + p.bytes, length);
      q := LaterPasses(fs, cs, next, done + p.bytes, length, a);
    }
  }

  /** Which pass covers an address: the first, or one behind it, and then the address is in a later cluster. */
  lemma TouchedWhere(fs: Fs, cs: seq<nat>, offset: nat, length: nat, a: nat) returns (q: nat)
    requires fs.Valid() && AllClusters(cs) && Pos(fs, offset) < |cs| && length > 0
    requires Touched(RangePasses(fs, cs, offset, length), a)
    ensures var ps := RangePasses(fs, cs, offset, length);
      ps != [] && (Covers(ps[0], a) || (Pos(fs, offset) < q && InCluster(fs, cs, q, a)))
  {
    hide PassAt, PassClusters, PassBytes, PassFails, Fs.BytesPerCluster, InCluster, Touched, Pos, Off, Covers, Passes,
      RestOffset, RangePasses;
    RangeIs(fs, cs, offset, length);
    var i, o, ps := Pos(fs, offset), Off(fs, offset), RangePasses(fs, cs, offset, length);
    PassesNext(fs, cs, i, o, 0, length);
    TouchedStep(ps, a);
    q := 0;
    if !Covers(ps[0], a) {
      var p := PassAt(fs, cs, i, o, 0, length);
      var next := i + PassClusters(fs, cs, i, p.rest, length);
      TouchedStep(ps[1..], a);
      assert ps[1..] == Passes(fs, cs, next, 0, p.bytes, length);
      q := LaterPasses(fs, cs, next, p.bytes, length, a);
    }
  }

  ghost predicate StaysInChain(fs: Fs, cs: seq<nat>, offset: nat, length: nat)
    requires fs.Valid() && AllClusters(cs) && Pos(fs, offset) < |cs|
  {
    forall a: nat :: Touched(RangePasses(fs, cs, offset, length), a) ==> InChain(fs, cs, a)
  }

  /** The first pass of a range runs out of clusters, so that nothing is transferred. */
  ghost predicate RangeStops(fs: Fs, cs: seq<nat>, offset: nat, length: nat)
    requires fs.Valid() && Pos(fs, offset) < |cs|
  {
    PassFails(fs, cs, Pos(fs, offset), RestOffset(fs, Off(fs, offset)), length)
  }

  /** A write, whether or not it succeeds, overwrites clusters of the file only, exactly when its range lies in one run,
      or begins with a cluster, or the cluster that follows the run on the disk belongs to the file too; or when it
      stops before its first device request. */
  lemma StaysInChainIff(fs: Fs, cs: seq<nat>, offset: nat, length: nat)
    requires fs.Valid() && AllClusters(cs) && Pos(fs, offset) < |cs| && length > 0
    requires RestOffset(fs, Off(fs, offset)) == 0
    ensures var i, o := Pos(fs, offset), Off(fs, offset);
      StaysInChain(fs, cs, offset, length) <==>
        || InOneRun(fs, cs, offset, length) || SkipSectors(fs, o) == 0 || cs[i] + RunLength(cs, i) in cs
        || RangeStops(fs, cs, offset, length)
  {
    hide Fs.BytesPerCluster, Times, RunLength, Touched, Pos, Off, ClusterAddress, RestOffset, SkipSectors, RangePasses,
      InChain, RangeStops;
    ClusterSize(fs);
    var i, o, ps := Pos(fs, offset), Off(fs, offset), RangePasses(fs, cs, offset, length);
    var n, bpc, fit := RunLength(cs, i), fs.BytesPerCluster(), Times(RunLength(cs, i), fs.BytesPerCluster());
    FirstOfRange(fs, cs, offset, length);
    if InOneRun(fs, cs, offset, length) || SkipSectors(fs, o) == 0 || cs[i] + n in cs || ps == [] {
      forall a: nat | Touched(ps, a)
        ensures InChain(fs, cs, a)
      {
        CoveredInChain(fs, cs, offset, length, a);
      }
    } else {
      PassReach(fs, cs, i, o, 0, length);
      TimesIs(n, bpc);
      SectorShift(fs, cs[i], n);
      var a := ClusterAddress(fs, cs[i]) + fit;
      RunPositive(cs, i);
      TimesStep(0, n, bpc);
      assert Covers(ps[0], a);
      TouchedStep(ps, a);
      OutsideChain(fs, cs, cs[i] + n);
    }
  }

  lemma FirstOfRange(fs: Fs, cs: seq<nat>, offset: nat, length: nat)
    requires fs.Valid() && AllClusters(cs) && Pos(fs, offset) < |cs|
    ensures Off(fs, offset) < fs.BytesPerCluster()
    ensures var i, o, ps := Pos(fs, offset), Off(fs, offset), RangePasses(fs, cs, offset, length);
      if RangeStops(fs, cs, offset, length) then ps == [] else ps != [] && ps[0] == PassAt(fs, cs, i, o, 0, length)
  {
    hide RestOffset, Pos, Off, Fs.BytesPerCluster, PassFails, PassAt;
    Position(fs, offset);
  }

  lemma CoveredInChain(fs: Fs, cs: seq<nat>, offset: nat, length: nat, a: nat)
    requires fs.Valid() && AllClusters(cs) && Pos(fs, offset) < |cs| && length > 0
    requires RestOffset(fs, Off(fs, offset)) == 0 && Touched(RangePasses(fs, cs, offset, length), a)
    requires var i, o := Pos(fs, offset), Off(fs, offset);
      || InOneRun(fs, cs, offset, length) || SkipSectors(fs, o) == 0 || cs[i] + RunLength(cs, i) in cs
      || RangePasses(fs, cs, offset, length) == []
    ensures InChain(fs, cs, a)
  {
    hide Fs.BytesPerCluster, Times, RunLength, Touched, Pos, Off, ClusterAddress, RestOffset, SkipSectors, RangePasses,
      RangeStops;
    var i, o, ps := Pos(fs, offset), Off(fs, offset), RangePasses(fs, cs, offset, length);
    var n, fit := RunLength(cs, i), Times(RunLength(cs, i), fs.BytesPerCluster());
    FirstOfRange(fs, cs, offset, length);
    PassReach(fs, cs, i, o, 0, length);
    TimesIs(n, fs.BytesPerCluster());
    SectorShift(fs, cs[i], n);
    var q := TouchedWhere(fs, cs, offset, length, a);
    if Covers(ps[0], a) {
      if a - ClusterAddress(fs, cs[i]) < fit {
        q := RunCluster(fs, cs, i, a - ClusterAddress(fs, cs[i]));
      } else {
        q :| 0 <= q < |cs| && cs[q] == cs[i] + n;
        assert InCluster(fs, cs, q, a);
      }
    }
  }

  /** The first byte of a cluster that the file does not have is not in the file. */
  lemma OutsideChain(fs: Fs, cs: seq<nat>, c: nat)
    requires fs.Valid() && AllClusters(cs) && c >= 2 && c !in cs
    ensures !InChain(fs, cs, ClusterAddress(fs, c))
  {
    hide Fs.BytesPerCluster, ClusterAddress;
    ClusterSize(fs);
    forall q: nat | q < |cs|
      ensures !InCluster(fs, cs, q, ClusterAddress(fs, c))
    {
      if cs[q] < c {
        ClustersApart(fs, cs[q], c);
      } else {
        ClustersApart(fs, c, cs[q]);
      }
    }
  }

  /** The clusters of a chain are distinct: a repeated one would go round for ever. */
  lemma {:induction false} ChainDistinct(fs: Fs, entry: nat, cs: seq<nat>, p: nat, q: nat)
    requires IsChain(fs, entry, cs) && p < q < |cs|
    ensures cs[p] != cs[q]
    decreases |cs| - q
  {
    ChainNumbers(fs, entry, cs, p);
    ChainNumbers(fs, entry, cs, q);
    if q + 1 < |cs| {
      ChainDistinct(fs, entry, cs, p + 1, q + 1);
    }
  }

  /** Clusters at different positions of a chain share no address. */
  lemma ClustersDisjoint(fs: Fs, entry: nat, cs: seq<nat>, p: nat, q: nat, a: nat)
    requires IsChain(fs, entry, cs) && AllClusters(cs) && InCluster(fs, cs, p, a) && InCluster(fs, cs, q, a)
    ensures p == q
  {
    hide IsChain, ClusterAddress, Fs.BytesPerCluster;
    if p != q {
      if p < q {
        ChainDistinct(fs, entry, cs, p, q);
      } else {
        ChainDistinct(fs, entry, cs, q, p);
      }
      if cs[p] < cs[q] {
        ClustersApart(fs, cs[p], cs[q]);
      } else {
        ClustersApart(fs, cs[q], cs[p]);
      }
    }
  }

  /** Byte `k` of a pass that stays in its run goes to the disk, and no later pass overwrites it. */
  lemma PassBytesTo(fs: Fs, disk: Store, m: Store, buffer: nat, entry: nat, cs: seq<nat>,
                    i: nat, offset: nat, done: nat, length: nat, k: nat)
    requires fs.Valid() && IsChain(fs, entry, cs) && AllClusters(cs) && i < |cs| && offset < fs.BytesPerCluster()
    requires done < length && Completes(fs, cs, i, 0, done, length) && RestOffset(fs, offset) == 0
    requires SkipSectors(fs, offset) == 0 || offset + length <= Times(RunLength(cs, i), fs.BytesPerCluster())
    requires k < PassBytes(fs, cs, i, 0, length)
    ensures var disk' := WriteOut(m, disk, buffer, Passes(fs, cs, i, offset, done, length));
      ByteAt(disk', ClusterAddress(fs, cs[i]) + offset + k) == ByteAt(m, buffer + done + k)
  {
    hide IsChain, Completes, PassAt, Stored, ByteAt, PassClusters, PassBytes, Fs.BytesPerCluster, RestOffset, Touched,
      ClusterAddress, SkipSectors, Times, RunLength, InCluster, Covers, Passes, PassFails;
    PassInRun(fs, cs, i, offset, length);
    PassesStep(fs, cs, i, offset, done, length);
    var ps, p := Passes(fs, cs, i, offset, done, length), PassAt(fs, cs, i, offset, done, length);
    var a := ClusterAddress(fs, cs[i]) + offset + k;
    StoredByte(m, disk, buffer, p, a);
    CoversByte(p, a);
    var next := i + PassClusters(fs, cs, i, 0, length);
    var rest := ps[1..];
    assert rest == if done + p.bytes == length then [] else Passes(fs, cs, next, 0, done + p.bytes, length);
    var x := WriteOutByte(m, Stored(m, disk, buffer, p), buffer, rest, a);
    TouchedStep(rest, a);
    if Touched(rest, a) {
      if done + p.bytes > length {
        TooMuch(fs, cs, next, done + p.bytes, length);
      }
      var q := LaterPasses(fs, cs, next, done + p.bytes, length, a);
      var q' := RunCluster(fs, cs, i, offset + k);
      ClustersDisjoint(fs, entry, cs, q, q', a);
      PassClustersInRun(fs, cs, i, offset, length);
    }
  }

  lemma CoversByte(p: Pass, a: nat)
    ensures Covers(p, a) <==> p.from <= a < p.from + p.size
  {
  }

  /** A pass that leaves something to do has used up its run. */
  lemma PassClustersInRun(fs: Fs, cs: seq<nat>, i: nat, offset: nat, length: nat)
    requires i < |cs| && PassBytes(fs, cs, i, 0, length) < length
    ensures PassClusters(fs, cs, i, 0, length) == RunLength(cs, i)
  {
  }

  /** Such a transfer stores every byte of its range of the file. */
  lemma {:induction false} DepositsByte(fs: Fs, disk: Store, m: Store, buffer: nat, entry: nat, cs: seq<nat>,
                                        i: nat, offset: nat, done: nat, length: nat, start: nat, x: nat)
    requires fs.Valid() && IsChain(fs, entry, cs) && AllClusters(cs) && i < |cs| && offset < fs.BytesPerCluster()
    requires done <= x < length && Completes(fs, cs, i, 0, done, length) && RestOffset(fs, offset) == 0
    requires start + done == Times(i, fs.BytesPerCluster()) + offset
    requires SkipSectors(fs, offset) == 0 || offset + length <= Times(RunLength(cs, i), fs.BytesPerCluster())
    ensures var disk' := WriteOut(m, disk, buffer, Passes(fs, cs, i, offset, done, length));
      start + x < |Concatenated(fs, disk', cs)| && Concatenated(fs, disk', cs)[start + x] == ByteAt(m, buffer + x)
    decreases |cs| - i
  {
    hide IsChain, Completes, PassAt, Stored, ByteAt, PassClusters, PassBytes, Fs.BytesPerCluster, RestOffset,
      ClusterAddress, Concatenated, RunLength, Times, SkipSectors, Passes;
    var bpc := fs.BytesPerCluster();
    PassInRun(fs, cs, i, offset, length);
    PassesStep(fs, cs, i, offset, done, length);
    var ps, p := Passes(fs, cs, i, offset, done, length), PassAt(fs, cs, i, offset, done, length);
    var disk' := WriteOut(m, disk, buffer, ps);
    TimesIs(RunLength(cs, i), bpc);
    TimesIs(i, bpc);
    if x < done + p.bytes {
      PassBytesTo(fs, disk, m, buffer, entry, cs, i, offset, done, length, x - done);
      RunByte(fs, disk', cs, i, offset + (x - done));
    } else {
      var next := i + PassClusters(fs, cs, i, 0, length);
      NextPassStart(fs, cs, i, offset, done, length);
      assert ps[1..] == Passes(fs, cs, next, 0, done + p.bytes, length);
      DepositsByte(fs, Stored(m, disk, buffer, p), m, buffer, entry, cs, next, 0, done + p.bytes, length, start, x);
    }
  }

  /** The range of the file holds the bytes of the buffer after the write. */
  ghost predicate Stores(fs: Fs, cs: seq<nat>, offset: nat, length: nat, disk: Store, m: Store, buffer: nat)
    requires fs.Valid() && AllClusters(cs) && Pos(fs, offset) < |cs|
  {
    var whole := Concatenated(fs, WriteOut(m, disk, buffer, RangePasses(fs, cs, offset, length)), cs);
    offset + length <= |whole| && whole[offset..offset + length] == Slice(m, buffer, length)
  }

  lemma FitsStores(fs: Fs, entry: nat, cs: seq<nat>, offset: nat, length: nat, disk: Store, m: Store, buffer: nat)
    requires fs.Valid() && IsChain(fs, entry, cs) && AllClusters(cs) && Pos(fs, offset) < |cs| && length > 0
    requires Fits(fs, cs, offset, length) && RestOffset(fs, Off(fs, offset)) == 0
    requires RangeCompletes(fs, cs, offset, length)
    ensures Stores(fs, cs, offset, length, disk, m, buffer)
  {
    hide IsChain, Completes, Passes, ByteAt, Slice, Fs.BytesPerCluster, RestOffset, Concatenated, RunLength, Times,
      SkipSectors, Pos, Off, EndsAtJump, WriteOut;
    Position(fs, offset);
    var i, o := Pos(fs, offset), Off(fs, offset);
    TimesIs(i, fs.BytesPerCluster());
    var whole := Concatenated(fs, WriteOut(m, disk, buffer, Passes(fs, cs, i, o, 0, length)), cs);
    var given := Slice(m, buffer, length);
    forall x: nat | x < length
      ensures offset + x < |whole| && whole[offset + x] == given[x]
    {
      DepositsByte(fs, disk, m, buffer, entry, cs, i, o, 0, length, offset, x);
    }
    DepositsByte(fs, disk, m, buffer, entry, cs, i, o, 0, length, offset, length - 1);
    assert whole[offset..offset + length] == given;
  }

  /** Passes take their bytes from the buffer in order. */
  lemma {:induction false} LaterBytes(fs: Fs, cs: seq<nat>, i: nat, offset: nat, done: nat, length: nat, x: nat)
    requires fs.Valid() && AllClusters(cs) && i < |cs| && offset < fs.BytesPerCluster()
    requires x < |Passes(fs, cs, i, offset, done, length)|
    ensures Passes(fs, cs, i, offset, done, length)[x].to >= done
    ensures x > 0 ==>
      Passes(fs, cs, i, offset, done, length)[x].to >= done + PassAt(fs, cs, i, offset, done, length).bytes
    decreases |cs| - i
  {
    hide PassClusters, PassBytes, Fs.BytesPerCluster, RestOffset, ClusterAddress;
    var p := PassAt(fs, cs, i, offset, done, length);
    var next := i + PassClusters(fs, cs, i, p.rest, length);
    if x > 0 {
      LaterBytes(fs, cs, next, 0, done + p.bytes, length, x - 1);
    }
  }

  /** Outside the fitting ranges some buffer contents show the difference. */
  lemma CrossingWrite(fs: Fs, cs: seq<nat>, offset: nat, length: nat, buffer: nat) returns (m: Store)
    requires fs.Valid() && AllClusters(cs) && Pos(fs, offset) < |cs| && length > 0
    requires RangeCompletes(fs, cs, offset, length) && !Fits(fs, cs, offset, length)
    requires RestOffset(fs, Off(fs, offset)) == 0
    ensures !Stores(fs, cs, offset, length, map[], m, buffer)
  {
    hide Completes, Passes, Slice, Fs.BytesPerCluster, RestOffset, Concatenated, RunLength, Times, SkipSectors,
      Pos, Off, Fits, WriteOut, ClusterAddress, Touched, PassAt, PassBytes, PassClusters;
    Position(fs, offset);
    ClusterSize(fs);
    var i, o, ps := Pos(fs, offset), Off(fs, offset), RangePasses(fs, cs, offset, length);
    var k := RunsPast(fs, cs, offset, length);
    var n := RunLength(cs, i);
    m := map[buffer + k := 1];
    var disk' := WriteOut(m, map[], buffer, ps);
    TimesIs(i + n, fs.BytesPerCluster());
    PassesStep(fs, cs, i, o, 0, length);
    if i + n == |cs| {
      ConcatenatedByte(fs, disk', cs, 0, 0);
    } else {
      var a := ClusterAddress(fs, cs[i + n]);
      if cs[i + n] < cs[i] + n {
        ClustersApart(fs, cs[i + n], cs[i] + n);
      } else {
        ClustersApart(fs, cs[i] + n, cs[i + n]);
      }
      ConcatenatedByte(fs, disk', cs, i + n, 0);
      var x := WriteOutByte(m, map[], buffer, ps, a);
      if x < |ps| {
        LaterBytes(fs, cs, i, o, 0, length, x);
      }
      assert ByteAt(disk', a) == 0;
      assert Slice(m, buffer, length)[k] == 1;
    }
  }

  /** `write` of whole sectors stores the bytes it was given, whatever they are, exactly in the fitting ranges. */
  lemma WriteExact(fs: Fs, entry: nat, cs: seq<nat>, offset: nat, length: nat)
    requires fs.Valid() && IsChain(fs, entry, cs) && AllClusters(cs) && Pos(fs, offset) < |cs| && length > 0
    requires RestOffset(fs, Off(fs, offset)) == 0
    ensures (RangeCompletes(fs, cs, offset, length)
             && forall disk: Store, m: Store, buffer: nat :: Stores(fs, cs, offset, length, disk, m, buffer))
       <==> Fits(fs, cs, offset, length)
  {
    hide RangeCompletes, Stores, Fits, Pos, IsChain, RestOffset;
    if Fits(fs, cs, offset, length) {
      FitsCompletes(fs, cs, offset, length);
      forall disk: Store, m: Store, buffer: nat
        ensures Stores(fs, cs, offset, length, disk, m, buffer)
      {
        FitsStores(fs, entry, cs, offset, length, disk, m, buffer);
      }
    } else if RangeCompletes(fs, cs, offset, length) {
      var m := CrossingWrite(fs, cs, offset, length, 0);
    }
  }

  /** A range in one run takes one pass. */
  lemma OnePass(fs: Fs, cs: seq<nat>, offset: nat, length: nat)
    requires fs.Valid() && AllClusters(cs) && InOneRun(fs, cs, offset, length)
    ensures |RangePasses(fs, cs, offset, length)| == 1 && RangeCompletes(fs, cs, offset, length)
  {
    hide Times, RunLength, RestOffset, Fs.BytesPerCluster, Pos, Off, PassAt;
    Position(fs, offset);
    RestBelow(fs, Off(fs, offset));
    PassesStep(fs, cs, Pos(fs, offset), Off(fs, offset), 0, length);
  }

  // ------------------------------------------------------------------ the loops, pass by pass

  lemma NothingMade(disk: Store, to: Store, m: Store, buffer: nat)
    ensures ReadBack(disk, m, buffer, []) == m && WriteOut(m, to, buffer, []) == to
    ensures Requests(false, []) == Requests(true, []) == []
  {
  }

  /** What one more pass adds. */
  lemma {:induction false} ReadBackAppend(disk: Store, m: Store, buffer: nat, ps: seq<Pass>, p: Pass)
    ensures ReadBack(disk, m, buffer, ps + [p]) == Loaded(disk, ReadBack(disk, m, buffer, ps), buffer, p)
    decreases |ps|
  {
    hide Loaded;
    if ps != [] {
      assert (ps + [p])[1..] == ps[1..] + [p];
      ReadBackAppend(disk, Loaded(disk, m, buffer, ps[0]), buffer, ps[1..], p);
    }
  }

  lemma {:induction false} WriteOutAppend(m: Store, disk: Store, buffer: nat, ps: seq<Pass>, p: Pass)
    ensures WriteOut(m, disk, buffer, ps + [p]) == Stored(m, WriteOut(m, disk, buffer, ps), buffer, p)
    decreases |ps|
  {
    hide Stored;
    if ps != [] {
      assert (ps + [p])[1..] == ps[1..] + [p];
      WriteOutAppend(m, Stored(m, disk, buffer, ps[0]), buffer, ps[1..], p);
    }
  }

  lemma {:induction false} RequestsAppend(write: bool, ps: seq<Pass>, p: Pass)
    ensures Requests(write, ps + [p]) == Requests(write, ps) + [Request(write, p.from, p.size)]
    decreases |ps|
  {
    if ps != [] {
      assert (ps + [p])[1..] == ps[1..] + [p];
      RequestsAppend(write, ps[1..], p);
    }
  }

  /** The loop stands before the pass from chain position `i`, `data` bytes into its cluster, with `done` bytes
      transferred by the passes `made`. */
  ghost predicate Underway(fs: Fs, cs: seq<nat>, offset: nat, length: nat, i: nat, data: nat, done: nat,
                           made: seq<Pass>)
    requires fs.Valid() && AllClusters(cs) && Pos(fs, offset) < |cs|
  {
    && i < |cs| && data < fs.BytesPerCluster() && data == (if made == [] then Off(fs, offset) else 0)
    && (RangeCompletes(fs, cs, offset, length) <==> Completes(fs, cs, i, RestOffset(fs, data), done, length))
    && RangePasses(fs, cs, offset, length) == made + Passes(fs, cs, i, data, done, length)
  }

  lemma LoopBegins(fs: Fs, cs: seq<nat>, offset: nat, length: nat)
    requires fs.Valid() && AllClusters(cs) && Pos(fs, offset) < |cs|
    ensures Underway(fs, cs, offset, length, Pos(fs, offset), Off(fs, offset), 0, [])
  {
    hide Completes, Passes, Pos, Off, RestOffset;
    Position(fs, offset);
  }

  /** One round of the loop: how it ends, or where it goes on. */
  lemma LoopStep(fs: Fs, cs: seq<nat>, offset: nat, length: nat, i: nat, data: nat, done: nat, made: seq<Pass>)
    requires fs.Valid() && AllClusters(cs) && Pos(fs, offset) < |cs|
    requires Underway(fs, cs, offset, length, i, data, done, made)
    ensures i < |cs| && data < fs.BytesPerCluster() && RestOffset(fs, 0) == 0
    ensures var p, all := PassAt(fs, cs, i, data, done, length), RangePasses(fs, cs, offset, length);
      var next, now := i + PassClusters(fs, cs, i, p.rest, length), done + p.bytes;
      && data == (if made == [] then Off(fs, offset) else 0) && p.rest == RestOffset(fs, data) && made <= all
      && if PassFails(fs, cs, i, p.rest, length) then made == all && !RangeCompletes(fs, cs, offset, length)
         else
           && made + [p] <= all
           && (now == length || next >= |cs| ==> made + [p] == all)
           && (now == length ==> RangeCompletes(fs, cs, offset, length))
           && (now != length && next >= |cs| ==> !RangeCompletes(fs, cs, offset, length))
           && (now != length && next < |cs| ==> Underway(fs, cs, offset, length, next, 0, now, made + [p]))
  {
    hide RangeCompletes, RangePasses, Passes, PassAt, PassFails, PassClusters, PassBytes, Pos, Off, Fs.BytesPerCluster,
      RestOffset;
    PassesNext(fs, cs, i, data, done, length);
  }

  // ------------------------------------------------------------------ inputs on which transfers go wrong

  /** A file of two clusters that do not follow each other cannot be read whole. */
  lemma FragmentedExample(fs: Fs)
    requires fs.bytesPerSector == 512 && fs.sectorsPerCluster == 1 && fs.lbaSize > 0
    ensures !RangeCompletes(fs, [2, 4], 0, 1024)
  {
    CompletesIff(fs, [2, 4], 0, 0, 1024);
  }

  /** Two sectors from the last sector of cluster 2 on, in a file whose next cluster is 4: one pass of two sectors. */
  lemma CrossingPass(fs: Fs)
    requires fs.bytesPerSector == 512 && fs.sectorsPerCluster == 8 && fs.lbaSize > 0
    ensures Pos(fs, 3584) == 0 && Off(fs, 3584) == 3584 && fs.BytesPerCluster() == 4096
    ensures RangeCompletes(fs, [2, 4], 3584, 1024) && !InOneRun(fs, [2, 4], 3584, 1024)
    ensures RangePasses(fs, [2, 4], 3584, 1024) == [Pass(ClusterAddress(fs, 2) + 3584, 1024, 0, 0, 1024)]
  {
    hide ClusterAddress;
    Position(fs, 3584);
    assert RunLength([2, 4], 0) == 1 && Times(1, 4096) == 4096 && RestOffset(fs, 3584) == 0;
    assert SectorsFor(fs, 1024) == 2;
    PassesStep(fs, [2, 4], 0, 3584, 0, 1024);
  }

  /** Reading it succeeds and delivers the first byte of cluster 3, which is not in the file. */
  lemma CrossingReadExample(fs: Fs, disk: Store, m: Store, buffer: nat)
    requires fs.bytesPerSector == 512 && fs.sectorsPerCluster == 8 && fs.lbaSize > 0
    ensures Pos(fs, 3584) == 0 && RangeCompletes(fs, [2, 4], 3584, 1024)
    ensures ByteAt(ReadBack(disk, m, buffer, RangePasses(fs, [2, 4], 3584, 1024)), buffer + 512)
         == ByteAt(disk, ClusterAddress(fs, 3))
  {
    hide ByteAt, ClusterAddress, Loaded;
    CrossingPass(fs);
    var p := Pass(ClusterAddress(fs, 2) + 3584, 1024, 0, 0, 1024);
    assert [p][1..] == [];
    LoadedByte(disk, m, buffer, p, buffer + 512);
    FillsBytes(p, buffer, buffer + 512);
    SectorShift(fs, 2, 1);
  }

  /** Writing it succeeds and overwrites that byte. */
  lemma CrossingWriteExample(fs: Fs, disk: Store, m: Store, buffer: nat)
    requires fs.bytesPerSector == 512 && fs.sectorsPerCluster == 8 && fs.lbaSize > 0
    ensures Pos(fs, 3584) == 0 && RangeCompletes(fs, [2, 4], 3584, 1024) && !StaysInChain(fs, [2, 4], 3584, 1024)
    ensures ByteAt(WriteOut(m, disk, buffer, RangePasses(fs, [2, 4], 3584, 1024)), ClusterAddress(fs, 3))
         == ByteAt(m, buffer + 512)
  {
    hide ByteAt, ClusterAddress, Stored, StaysInChain;
    CrossingPass(fs);
    var p := Pass(ClusterAddress(fs, 2) + 3584, 1024, 0, 0, 1024);
    assert [p][1..] == [];
    SectorShift(fs, 2, 1);
    StoredByte(m, disk, buffer, p, ClusterAddress(fs, 3));
    StaysInChainIff(fs, [2, 4], 3584, 1024);
  }
}

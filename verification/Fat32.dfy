/** Reading and writing files: runs of consecutive clusters become single device requests. */
module Fat32 {
  import opened Options
  import opened Arithmetic
  import opened Fat32Model
  import opened Fat32Passes
  import opened Fat32Footprint

  /** How one run ended. */
  datatype RunEnd = Counted | Refused | ChainEnded

  /** With whole sectors to write, whole sectors are left. */
  lemma SectorsLeft(fs: Fs, m: nat, length: nat)
    requires fs.Valid() && length % fs.bytesPerSector == 0 && Times(m, fs.BytesPerCluster()) < length
    ensures length - Times(m, fs.BytesPerCluster()) >= fs.bytesPerSector
  {
    var bps, n := fs.bytesPerSector, m * fs.sectorsPerCluster;
    assert Times(m, fs.BytesPerCluster()) == n * bps;
    var q := length / bps;
    assert length == q * bps;
    assert (q - n) * bps == q * bps - n * bps;
    PositiveFactor(q - n, bps);
    ProductAtLeast(q - n, bps);
  }

  /** The inner loop of `read` and `write`: from the cluster at chain position `i`, counts the sectors to
      transfer until the length is used up or the next cluster is not the next one on the disk. Writing
      refuses to go on with less than a sector left. */
  method CountRun(fs: Fs, write: bool, length: nat, offset: nat, first: nat,
                  ghost entry: nat, ghost cs: seq<nat>, ghost i: nat)
    returns (end: RunEnd, sectors: nat, bytes: nat, skip: nat, rest: nat, cluster: nat, ghost m: nat)
    requires fs.Valid() && IsChain(fs, entry, cs) && i < |cs| && first == cs[i]
    ensures m < RunLength(cs, i) && i + m < |cs| && cluster == cs[i + m]
    ensures end.Counted? ==> skip == SkipSectors(fs, offset) && rest == RestOffset(fs, offset)
    ensures end.Refused? ==> write
    ensures write && length < fs.bytesPerSector ==> end.Refused?
    ensures write && length > 0 && length % fs.bytesPerSector == 0 && RestOffset(fs, offset) == 0 ==> !end.Refused?
    ensures end.ChainEnded? ==> m + 1 == RunLength(cs, i) && i + m + 1 == |cs|
    ensures var d, fit := RestOffset(fs, offset), Times(RunLength(cs, i), fs.BytesPerCluster());
      && fs.BytesPerCluster() > 0 && (length + d <= fit ==> !end.ChainEnded?)
      && (end.Counted? && length + d <= fit ==>
            bytes == length && sectors == SectorsFor(fs, length + d) && m + 1 == Clusters(fs, length + d))
      && (end.Counted? && length + d > fit ==>
            && m + 1 == RunLength(cs, i) && i + m + 1 < |cs| && bytes + d == fit
            && sectors == Times(RunLength(cs, i), fs.sectorsPerCluster))
  {
    hide RunLength, SectorsFor, SkipSectors, RestOffset, Clusters, Times, Fs.BytesPerCluster, IsChain;
    var bpc, bps := fs.BytesPerCluster(), fs.bytesPerSector;
    ghost var n, d := RunLength(cs, i), RestOffset(fs, offset);
    ClusterSize(fs);
    OffsetCases(fs, offset);
    RunBounds(cs, i);
    TimesStep(0, n, bpc);
    TimesStep(0, n, fs.sectorsPerCluster);
    var data := offset;
    sectors, bytes, skip, rest, cluster, m := 0, 0, 0, offset, first, 0;
    while true
      invariant m < n && i + m < |cs| && cluster == cs[i + m]
      invariant m == 0 ==> data == rest == offset && bytes == 0 && sectors == 0 && skip == 0
      invariant m > 0 ==> data == 0 && bytes + d == Times(m, bpc) < length + d
      invariant m > 0 ==> sectors == Times(m, fs.sectorsPerCluster)
      invariant m > 0 ==> skip == SkipSectors(fs, offset) && rest == d
      decreases n - m
    {
      if write && length - bytes < bps {
        if length > 0 && length % bps == 0 && d == 0 { SectorsLeft(fs, m, length); }
        return Refused, sectors, bytes, skip, rest, cluster, m;
      }
      if data > bps {
        skip := data / bps;
        data := data - skip * bps;
        rest := data;
      }
      TimesStep(m, n, bpc);
      TimesStep(m, n, fs.sectorsPerCluster);
      if length - bytes + data <= bpc {
        LastCluster(fs, m, length + d);
        sectors := sectors + SectorsFor(fs, length - bytes + data);
        return Counted, sectors, length, skip, rest, cluster, m;
      }
      sectors, bytes := sectors + fs.sectorsPerCluster, bytes + (bpc - data);
      ChainNumbers(fs, entry, cs, i + m);
      RunConsecutive(cs, i, m);
      var next := fs.NextCluster(cluster);
      if next.None? {
        return ChainEnded, sectors, bytes, skip, rest, cluster, m;
      }
      if next.value != cluster + 1 {
        return Counted, sectors, bytes, skip, rest, cluster, m;
      }
      data, cluster, m := 0, next.value, m + 1;
    }
  }

  datatype Result = Result(ok: bool, bytes: nat)

  /** Part of `bytes` with the bits of `mask` cleared: `bytes & !mask`. */
  function ClearBits(bytes: nat, mask: nat): (r: nat)
    ensures r <= bytes <= r + mask
  {
    if bytes == 0 then 0
    else 2 * ClearBits(bytes / 2, mask / 2) + if mask % 2 == 1 then 0 else bytes % 2
  }

  lemma {:induction false} ClearNothing(bytes: nat)
    ensures ClearBits(bytes, 0) == bytes
  {
    if bytes > 0 {
      ClearNothing(bytes / 2);
    }
  }

  /** Clearing the low bits rounds down: for a block size of `2^k` bytes to whole blocks. */
  lemma {:induction false} ClearLowBits(bytes: nat, k: nat)
    ensures ClearBits(bytes, Pow2(k) - 1) == bytes - bytes % Pow2(k)
    decreases k
  {
    hide ClearBits, Pow2;
    PowerStep(k);
    if k == 0 {
      ClearNothing(bytes);
    } else {
      var size := Pow2(k - 1);
      ClearLowBits(bytes / 2, k - 1);
      HalfRemainder(bytes, size);
      OddMask(size);
      ClearStep(bytes, 2 * size - 1);
    }
  }

  lemma PowerStep(k: nat)
    ensures Pow2(k) == if k == 0 then 1 else 2 * Pow2(k - 1)
  {
  }

  lemma OddMask(size: nat)
    requires size > 0
    ensures (2 * size - 1) % 2 == 1 && (2 * size - 1) / 2 == size - 1
  {
  }

  lemma ClearStep(bytes: nat, mask: nat)
    requires mask % 2 == 1
    ensures ClearBits(bytes, mask) == 2 * ClearBits(bytes / 2, mask / 2)
  {
  }

  lemma HalfRemainder(x: nat, size: nat)
    requires size > 0
    ensures x % (2 * size) == 2 * (x / 2 % size) + x % 2
  {
    var half, q := x / 2, x / 2 / size;
    QuotientRemainder(half, size);
    assert q * (2 * size) == 2 * (q * size);
    DivUnique(x, 2 * size, q, 2 * (half % size) + x % 2);
  }

  /** The device and the memory a transfer works on. */
  class Volume {
    const fs: Fs
    /** Status the device will report for each request to come; it reports success from there on. */
    const replies: seq<bool>
    /** Whether pages for a bounce buffer can be allocated. */
    const pagesFree: bool
    var mem: Store
    var disk: Store
    var requests: seq<Request>

    predicate Reply(k: nat) { k < |replies| ==> replies[k] }

    /** Nothing outside the file system makes a transfer fail. */
    ghost predicate Healthy() {
      replies == [] && pagesFree && fs.base % 512 == 0 && fs.bytesPerSector % 512 == 0
    }

    /** `read_sectors` into a buffer of its own: refused unless 512-byte aligned. */
    method ReadSectors(sector: nat, sectors: nat) returns (ok: bool, data: seq<byte>)
      modifies this`requests
      ensures Healthy() ==> ok
      ensures var address, size := fs.base + sector * fs.bytesPerSector, sectors * fs.bytesPerSector;
        && data == Slice(disk, address, size)
        && ok == (address % 512 == 0 && size % 512 == 0 && Reply(|old(requests)|))
        && requests == old(requests) +
             if address % 512 == 0 && size % 512 == 0 then [Request(false, address, size)] else []
    {
      hide Slice, ByteAt;
      var address, length := fs.base + sector * fs.bytesPerSector, sectors * fs.bytesPerSector;
      data := Slice(disk, address, length);
      if fs.base % 512 == 0 && fs.bytesPerSector % 512 == 0 {
        AlignedRequest(fs, sector, sectors);
      }
      if address % 512 != 0 || length % 512 != 0 {
        return false, data;
      }
      ok := Reply(|requests|);
      requests := requests + [Request(false, address, length)];
    }

    lemma AlignedRequest(fs: Fs, sector: nat, sectors: nat)
      requires fs.base % 512 == 0 && fs.bytesPerSector % 512 == 0
      ensures (fs.base + sector * fs.bytesPerSector) % 512 == 0 && (sectors * fs.bytesPerSector) % 512 == 0
    {
      MultipleOfMultiple(sector, fs.bytesPerSector);
      MultipleOfMultiple(sectors, fs.bytesPerSector);
      ModShift(fs.base, sector * fs.bytesPerSector, 512);
    }

    lemma MultipleOfMultiple(n: nat, size: nat)
      requires size % 512 == 0
      ensures (n * size) % 512 == 0
    {
      var q := size / 512;
      assert n * size == (n * q) * 512;
      MultipleMod(n * q, 512);
    }

    /** The pages of the bounce buffer: `((size & !(lba_size - 1)) + lba_size >> 12) + 1`. */
    function BouncePages(sectors: nat): nat
      requires fs.lbaSize > 0
    {
      (ClearBits(sectors * fs.bytesPerSector, fs.lbaSize - 1) + fs.lbaSize) / 0x1000 + 1
    }

    /** For a block size that is a power of two: whole blocks, one more of them, and one more page. */
    lemma BouncePagesIs(sectors: nat, k: nat)
      requires fs.lbaSize == Pow2(k)
      ensures var size := sectors * fs.bytesPerSector;
        BouncePages(sectors) == (size - size % fs.lbaSize + fs.lbaSize) / 0x1000 + 1
    {
      hide Pow2;
      ClearLowBits(sectors * fs.bytesPerSector, k);
    }

    lemma BounceLargeEnough(sectors: nat)
      requires fs.lbaSize > 0
      ensures BouncePages(sectors) * 0x1000 > sectors * fs.bytesPerSector
      ensures BouncePages(sectors) * 0x1000 <= sectors * fs.bytesPerSector + fs.lbaSize + 0x1000
    {
      hide ClearBits;
      var size := ClearBits(sectors * fs.bytesPerSector, fs.lbaSize - 1) + fs.lbaSize;
      assert size > sectors * fs.bytesPerSector;
    }

    /** The transfer of one pass of `read`: through a bounce buffer when bytes in front must be dropped. */
    method ReadRun(buffer: nat, done: nat, sector: nat, sectors: nat, rest: nat, bytes: nat, ghost p: Pass)
      returns (ok: bool)
      requires fs.Valid() && p.Valid() && p.rest == rest && p.bytes == bytes && p.to == done
      requires p.from == fs.base + sector * fs.bytesPerSector && p.size == sectors * fs.bytesPerSector
      modifies this`mem, this`requests
      ensures Healthy() ==> ok
      ensures ok == ((p.rest == 0 || pagesFree) && p.from % 512 == 0 && p.size % 512 == 0 && Reply(|old(requests)|))
      ensures requests == old(requests) + [Request(false, p.from, p.size)] || (!ok && requests == old(requests))
      ensures mem == if ok then Loaded(disk, old(mem), buffer, p) else old(mem)
    {
      hide Loaded, Put, Slice, ByteAt, ClearBits;
      if rest != 0 && !pagesFree {
        return false;
      }
      var data;
      ok, data := ReadSectors(sector, sectors);
      if !ok {
        return;
      }
      LoadedIs(disk, mem, buffer, p, data);
      if rest != 0 {
        BounceLargeEnough(sectors);
        assert |data| <= BouncePages(sectors) * 0x1000;
        mem := Put(mem, buffer + done, data[rest..rest + bytes]);
      } else {
        mem := Put(mem, buffer + done, data);
      }
    }

    /** The loop that walks over whole clusters in front of the offset. */
    method SkipClusters(entry: nat, count: nat, ghost cs: seq<nat>) returns (ok: bool, cluster: nat)
      requires IsChain(fs, entry, cs)
      ensures ok == (count < |cs|)
      ensures ok ==> cluster == cs[count]
    {
      cluster := entry;
      for k := 0 to count
        invariant k < |cs| && cluster == cs[k]
      {
        ChainNumbers(fs, entry, cs, k);
        var next := fs.NextCluster(cluster);
        if next.None? {
          return false, cluster;
        }
        cluster := next.value;
      }
      ok := true;
    }

    /** The length a transfer is cut down to at the end of the file, or nothing when it starts there. */
    function Clamped(fileSize: nat, offset: nat, length: nat): Option<nat> {
      if offset + length <= fileSize then Some(length)
      else if offset >= fileSize then None
      else Some(fileSize - offset)
    }

    /** A pass was made and the loop can go on from the cluster behind it. */
    ghost predicate PassMade(cs: seq<nat>, i: nat, length: nat, p: Pass, bytes: nat, m: nat)
      requires i < |cs|
    {
      && bytes == p.bytes && m + 1 == PassClusters(fs, cs, i, p.rest, length)
      && (length + p.rest <= Times(RunLength(cs, i), fs.BytesPerCluster()) || i + m + 1 < |cs|)
    }

    /** One pass of the outer loop of `read`, from the cluster at chain position `i`. */
    method ReadPass(length: nat, offset: nat, first: nat, buffer: nat, done: nat,
                    ghost entry: nat, ghost cs: seq<nat>, ghost i: nat)
      returns (ok: bool, bytes: nat, cluster: nat, ghost m: nat)
      requires fs.Valid() && IsChain(fs, entry, cs) && AllClusters(cs) && i < |cs| && first == cs[i]
      requires offset < fs.BytesPerCluster()
      modifies this`mem, this`requests
      ensures i + m < |cs| && cluster == cs[i + m]
      ensures var p := PassAt(fs, cs, i, offset, done, length);
        && (ok ==> PassMade(cs, i, length, p, bytes, m))
        && mem == (if ok then Loaded(disk, old(mem), buffer, p) else old(mem))
        && (requests == old(requests) + [Request(false, p.from, p.size)] || (!ok && requests == old(requests)))
        && (requests != old(requests) ==> !PassFails(fs, cs, i, p.rest, length))
      ensures !ok && Healthy() ==> PassFails(fs, cs, i, RestOffset(fs, offset), length)
    {
      hide RunLength, SectorsFor, SkipSectors, RestOffset, Clusters, Times, Fs.BytesPerCluster, IsChain, PassAt, Loaded,
        Fs.ClusterToSector, ClusterAddress;
      PassParts(fs, cs, i, offset, done, length);
      var end, sectors, skip, rest;
      OffsetCases(fs, offset);
      ChainNumbers(fs, entry, cs, i);
      RunBounds(cs, i);
      RestBelow(fs, offset);
      end, sectors, bytes, skip, rest, cluster, m := CountRun(fs, false, length, offset, first, entry, cs, i);
      if !end.Counted? {
        return false, bytes, cluster, m;
      }
      ghost var p := PassAt(fs, cs, i, offset, done, length);
      ok := ReadRun(buffer, done, fs.ClusterToSector(first) + skip, sectors, rest, bytes, p);
    }

    /** Memory from `buffer` on holds the bytes of the file from `offset` on. */
    ghost predicate Holds(cs: seq<nat>, buffer: nat, offset: nat, length: nat)
      requires AllClusters(cs)
      reads this`mem, this`disk
    {
      && offset + length <= |Concatenated(fs, disk, cs)|
      && Slice(mem, buffer, length) == Concatenated(fs, disk, cs)[offset..offset + length]
    }

    /** What a completed read means for ranges in one run and for fitting ranges. */
    lemma ReadResult(m: Store, rs: seq<Request>, buffer: nat, cs: seq<nat>, offset: nat, length: nat)
      requires fs.Valid() && AllClusters(cs) && Pos(fs, offset) < |cs| && RangeCompletes(fs, cs, offset, length)
      requires mem == ReadBack(disk, m, buffer, RangePasses(fs, cs, offset, length))
      requires requests == rs + Requests(false, RangePasses(fs, cs, offset, length))
      ensures InOneRun(fs, cs, offset, length) ==> |requests| == |rs| + 1
      ensures length > 0 && Fits(fs, cs, offset, length) ==> Holds(cs, buffer, offset, length)
    {
      hide RangeCompletes, RangePasses, ReadBack, Requests, Fits, InOneRun, Concatenated, Slice, Pos, Off;
      if InOneRun(fs, cs, offset, length) {
        OnePass(fs, cs, offset, length);
      }
      if length > 0 && Fits(fs, cs, offset, length) {
        FitsDelivers(fs, cs, offset, length, disk, m, buffer);
      }
    }

    /** The passes that a transfer has made, and those it has asked the device for. A pass that fails moves no bytes;
        one that succeeds, or with nothing failing outside, the transfer makes all its passes. */
    ghost predicate MadeOf(ps: seq<Pass>, made: seq<Pass>, tried: seq<Pass>, all: bool) {
      made <= tried <= ps && |tried| <= |made| + 1 && (all ==> made == tried == ps)
    }

    /** `read`. A range that starts at or behind the end of the file and reaches past it reads nothing, and one that
        starts behind the end of the chain fails. Otherwise memory and requests are what the passes over the chain make
        of them: all passes if it succeeds or nothing fails outside, else those in front. Success means that the passes
        complete, with the clamped length; with nothing failing outside, it succeeds exactly when they do; a range in
        one run of clusters is one device request; and a fitting range is delivered as the bytes of the file. */
    method Read(entry: nat, fileSize: nat, buffer: nat, offset: nat, length0: nat, ghost cs: seq<nat>)
      returns (r: Result, ghost made: seq<Pass>, ghost tried: seq<Pass>)
      requires fs.Valid() && IsChain(fs, entry, cs) && AllClusters(cs)
      modifies this`mem, this`requests
      ensures mem == ReadBack(disk, old(mem), buffer, made) && requests == old(requests) + Requests(false, tried)
      ensures Clamped(fileSize, offset, length0).None? ==> r == Result(true, 0) && made == tried == []
      ensures Clamped(fileSize, offset, length0).Some? ==>
        var length, i := Clamped(fileSize, offset, length0).value, Pos(fs, offset);
        if i >= |cs| then !r.ok && made == tried == []
        else
          && MadeOf(RangePasses(fs, cs, offset, length), made, tried, r.ok || Healthy())
          && (r.ok ==> r.bytes == length && RangeCompletes(fs, cs, offset, length))
          && (Healthy() ==> (r.ok <==> RangeCompletes(fs, cs, offset, length)))
          && (r.ok && InOneRun(fs, cs, offset, length) ==> |requests| == |old(requests)| + 1)
          && (r.ok && length > 0 && Fits(fs, cs, offset, length) ==> Holds(cs, buffer, offset, length))
    {
      hide RunLength, Times, RestOffset, Fs.BytesPerCluster, PassClusters, PassFails, Holds, PassAt, RangePasses,
        ReadBack, Requests, Loaded, Fits, InOneRun, SkipSectors, RangeCompletes, Underway, IsChain;
      NothingMade(disk, mem, mem, buffer);
      made, tried := [], [];
      var length := length0;
      if offset + length > fileSize {
        if offset >= fileSize {
          return Result(true, 0), made, tried;
        }
        length := fileSize - offset;
      }
      var bpc := fs.BytesPerCluster();
      ClusterSize(fs);
      var skip := offset / bpc;
      var data: nat, done: nat := offset - skip * bpc, 0;
      QuotientRemainder(offset, bpc);
      var ok, cluster := SkipClusters(entry, skip, cs);
      if !ok {
        return Result(false, 0), made, tried;
      }
      ghost var i: nat := skip;
      LoopBegins(fs, cs, offset, length);
      while true
        invariant i < |cs| && cluster == cs[i] && tried == made && Underway(fs, cs, offset, length, i, data, done, made)
        invariant mem == ReadBack(disk, old(mem), buffer, made) && requests == old(requests) + Requests(false, made)
        decreases |cs| - i
      {
        ghost var m;
        LoopStep(fs, cs, offset, length, i, data, done, made);
        ghost var p := PassAt(fs, cs, i, data, done, length);
        ReadBackAppend(disk, old(mem), buffer, made, p);
        RequestsAppend(false, made, p);
        var n, last;
        ok, n, last, m := ReadPass(length, data, cluster, buffer, done, entry, cs, i);
        if !ok {
          if requests != old(requests) + Requests(false, made) {
            tried := made + [p];
          }
          return Result(false, done), made, tried;
        }
        made, tried := made + [p], made + [p];
        done := done + n;
        if length == done {
          ReadResult(old(mem), old(requests), buffer, cs, offset, length);
          return Result(true, done), made, tried;
        }
        ChainNumbers(fs, entry, cs, i + m);
        var next := fs.NextCluster(last);
        if next.None? {
          return Result(false, done), made, tried;
        }
        data, cluster, i := 0, next.value, i + m + 1;
      }
    }

    // ---------------------------------------------------------------- writing

    /** `write_sectors` */
    method WriteSectors(buffer: nat, sector: nat, sectors: nat) returns (ok: bool)
      modifies this`disk, this`requests
      ensures Healthy() ==> ok
      ensures var address, size := fs.base + sector * fs.bytesPerSector, sectors * fs.bytesPerSector;
        && ok == (address % 512 == 0 && size % 512 == 0 && Reply(|old(requests)|))
        && requests == old(requests) +
             (if address % 512 == 0 && size % 512 == 0 then [Request(true, address, size)] else [])
        && disk == if ok then Put(old(disk), address, Slice(mem, buffer, size)) else old(disk)
    {
      hide Put, Slice, ByteAt;
      var address, length := fs.base + sector * fs.bytesPerSector, sectors * fs.bytesPerSector;
      if fs.base % 512 == 0 && fs.bytesPerSector % 512 == 0 {
        AlignedRequest(fs, sector, sectors);
      }
      if address % 512 != 0 || length % 512 != 0 {
        return false;
      }
      ok := Reply(|requests|);
      requests := requests + [Request(true, address, length)];
      if ok {
        disk := Put(disk, address, Slice(mem, buffer, length));
      }
    }

    /** One pass of the outer loop of `write`; refuses offsets inside a sector. */
    method WritePass(length: nat, offset: nat, first: nat, buffer: nat, done: nat,
                     ghost entry: nat, ghost cs: seq<nat>, ghost i: nat)
      returns (ok: bool, bytes: nat, cluster: nat, ghost m: nat)
      requires fs.Valid() && IsChain(fs, entry, cs) && AllClusters(cs) && i < |cs| && first == cs[i]
      requires offset < fs.BytesPerCluster()
      modifies this`disk, this`requests
      ensures i + m < |cs| && cluster == cs[i + m]
      ensures var p := PassAt(fs, cs, i, offset, done, length);
        && (ok ==> PassMade(cs, i, length, p, bytes, m))
        && disk == (if ok then Stored(mem, old(disk), buffer, p) else old(disk))
        && (requests == old(requests) + [Request(true, p.from, p.size)] || (!ok && requests == old(requests)))
        && (requests != old(requests) ==>
              length >= fs.bytesPerSector && p.rest == 0 && !PassFails(fs, cs, i, p.rest, length))
      ensures !ok && Healthy() && length > 0 && length % fs.bytesPerSector == 0 && RestOffset(fs, offset) == 0 ==>
        PassFails(fs, cs, i, 0, length)
    {
      hide RunLength, SectorsFor, SkipSectors, RestOffset, Clusters, Times, Fs.BytesPerCluster, IsChain, PassAt, Put,
        Slice, Fs.ClusterToSector, ClusterAddress;
      PassParts(fs, cs, i, offset, done, length);
      var end, sectors, skip, rest;
      OffsetCases(fs, offset);
      ChainNumbers(fs, entry, cs, i);
      RunBounds(cs, i);
      RestBelow(fs, offset);
      end, sectors, bytes, skip, rest, cluster, m := CountRun(fs, true, length, offset, first, entry, cs, i);
      if !end.Counted? || rest != 0 {
        return false, bytes, cluster, m;
      }
      ok := WriteSectors(buffer + done, fs.ClusterToSector(first) + skip, sectors);
    }

    /** `write`. As for `read`, disk and requests are what the passes make of them, and success means that they
        complete. Nothing is written for less than a sector or for an offset with something to skip inside a sector;
        for whole sectors and other offsets, with nothing failing outside, all passes are made, and it succeeds exactly
        when they complete. */
    method Write(entry: nat, fileSize: nat, buffer: nat, offset: nat, length0: nat, ghost cs: seq<nat>)
      returns (r: Result, ghost made: seq<Pass>, ghost tried: seq<Pass>)
      requires fs.Valid() && IsChain(fs, entry, cs) && AllClusters(cs)
      modifies this`disk, this`requests
      ensures disk == WriteOut(mem, old(disk), buffer, made) && requests == old(requests) + Requests(true, tried)
      ensures Clamped(fileSize, offset, length0).None? ==> r == Result(true, 0) && made == tried == []
      ensures Clamped(fileSize, offset, length0).Some? ==>
        var length, i := Clamped(fileSize, offset, length0).value, Pos(fs, offset);
        var aligned := RestOffset(fs, Off(fs, offset)) == 0;
        if i >= |cs| || length < fs.bytesPerSector || !aligned then !r.ok && made == tried == []
        else var plain := Healthy() && length % fs.bytesPerSector == 0;
          && MadeOf(RangePasses(fs, cs, offset, length), made, tried, r.ok || plain)
          && (r.ok ==> r.bytes == length && RangeCompletes(fs, cs, offset, length))
          && (plain ==> (r.ok <==> RangeCompletes(fs, cs, offset, length)))
    {
      hide RunLength, Times, RestOffset, Fs.BytesPerCluster, PassClusters, PassFails, PassAt, RangePasses, WriteOut,
        Requests, Stored, SkipSectors, RangeCompletes, Underway, IsChain;
      NothingMade(disk, disk, mem, buffer);
      made, tried := [], [];
      var length := length0;
      if offset + length > fileSize {
        if offset >= fileSize {
          return Result(true, 0), made, tried;
        }
        length := fileSize - offset;
      }
      var bpc := fs.BytesPerCluster();
      ClusterSize(fs);
      var skip := offset / bpc;
      var data: nat, done: nat := offset - skip * bpc, 0;
      QuotientRemainder(offset, bpc);
      var ok, cluster := SkipClusters(entry, skip, cs);
      if !ok {
        return Result(false, 0), made, tried;
      }
      ghost var i: nat := skip;
      LoopBegins(fs, cs, offset, length);
      while true
        invariant i < |cs| && cluster == cs[i] && tried == made && Underway(fs, cs, offset, length, i, data, done, made)
        invariant made != [] ==> RestOffset(fs, Off(fs, offset)) == 0 && length >= fs.bytesPerSector
        invariant disk == WriteOut(mem, old(disk), buffer, made) && requests == old(requests) + Requests(true, made)
        decreases |cs| - i
      {
        ghost var m;
        LoopStep(fs, cs, offset, length, i, data, done, made);
        ghost var p := PassAt(fs, cs, i, data, done, length);
        WriteOutAppend(mem, old(disk), buffer, made, p);
        RequestsAppend(true, made, p);
        var n, last;
        ok, n, last, m := WritePass(length, data, cluster, buffer, done, entry, cs, i);
        if !ok {
          if requests != old(requests) + Requests(true, made) {
            tried := made + [p];
          }
          return Result(false, done), made, tried;
        }
        made, tried := made + [p], made + [p];
        done := done + n;
        if length == done {
          return Result(true, done), made, tried;
        }
        ChainNumbers(fs, entry, cs, i + m);
        var next := fs.NextCluster(last);
        if next.None? {
          return Result(false, done), made, tried;
        }
        data, cluster, i := 0, next.value, i + m + 1;
      }
    }

    lemma FatsKept(entry: nat, before: Store, cs: seq<nat>, fileSize: nat, offset: nat, length0: nat, buffer: nat,
                   made: seq<Pass>)
      requires fs.Valid() && IsChain(fs, entry, cs) && AllClusters(cs) && disk == WriteOut(mem, before, buffer, made)
      requires made == [] || (Clamped(fileSize, offset, length0).Some? && Pos(fs, offset) < |cs|
        && made <= RangePasses(fs, cs, offset, Clamped(fileSize, offset, length0).value))
      ensures forall a: nat :: a < DataStart(fs) ==> ByteAt(disk, a) == ByteAt(before, a)
    {
      hide IsChain, ByteAt, WriteOut, RangePasses, Pos, DataStart;
      NothingMade(before, before, mem, buffer);
      if made != [] {
        forall a: nat | a < DataStart(fs)
          ensures ByteAt(disk, a) == ByteAt(before, a)
        {
          WriteKeepsFats(fs, cs, offset, Clamped(fileSize, offset, length0).value, made, before, mem, buffer, a);
        }
      }
    }

    /** Write, then read the same range: for a fitting range of whole sectors the read succeeds and the bytes come back,
        and every byte of the disk outside the range of the file is as it was. Whatever becomes of the write, nothing in
        front of the clusters changes. */
    method WriteThenRead(entry: nat, fileSize: nat, from: nat, to: nat, offset: nat, length0: nat, ghost cs: seq<nat>)
      returns (written: Result, r: Result)
      requires fs.Valid() && IsChain(fs, entry, cs) && AllClusters(cs)
      modifies this`mem, this`disk, this`requests
      ensures Clamped(fileSize, offset, length0).Some? ==>
        var length := Clamped(fileSize, offset, length0).value;
        written.ok && Fits(fs, cs, offset, length) ==>
          && (r.ok ==> Slice(mem, to, length) == old(Slice(mem, from, length)))
          && (Healthy() ==> r.ok)
          && (length % fs.bytesPerSector == 0 ==>
                forall a: nat :: !InRange(fs, cs, offset, length, a) ==> ByteAt(disk, a) == old(ByteAt(disk, a)))
      ensures forall a: nat :: a < DataStart(fs) ==> ByteAt(disk, a) == old(ByteAt(disk, a))
    {
      hide RestOffset, RangeCompletes, Slice, ByteAt, Concatenated, Fs.BytesPerCluster, RangePasses, WriteOut, ReadBack,
        Requests, Fits, InOneRun, InRange, Pos, Off, IsChain, DataStart;
      ghost var made, tried;
      written, made, tried := Write(entry, fileSize, from, offset, length0, cs);
      if Clamped(fileSize, offset, length0).Some? {
        ghost var length := Clamped(fileSize, offset, length0).value;
        if written.ok && Fits(fs, cs, offset, length) {
          FitsStores(fs, entry, cs, offset, length, old(disk), mem, from);
          if length % fs.bytesPerSector == 0 {
            forall a: nat | !InRange(fs, cs, offset, length, a)
              ensures ByteAt(disk, a) == old(ByteAt(disk, a))
            {
              FitsFrame(fs, entry, cs, offset, length, old(disk), mem, from, a);
            }
          }
        }
      }
      FatsKept(entry, old(disk), cs, fileSize, offset, length0, from, made);
      r, made, tried := Read(entry, fileSize, to, offset, length0, cs);
    }

    /** With nothing failing outside, one sector cannot be written one sector into a cluster. */
    method RefusedExample(entry: nat, buffer: nat, ghost cs: seq<nat>) returns (r: Result)
      requires fs.bytesPerSector == 512 && fs.sectorsPerCluster == 8 && fs.lbaSize > 0 && Healthy()
      requires IsChain(fs, entry, cs) && AllClusters(cs)
      modifies this`disk, this`requests
      ensures !r.ok
    {
      Position(fs, 512);
      ghost var made, tried;
      r, made, tried := Write(entry, 4096, buffer, 512, 512, cs);
    }
  }
}

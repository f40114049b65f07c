/** What a FAT32 transfer touches, on the disk and in memory, whether or not it succeeds. */
module Fat32Footprint {
  import opened Arithmetic
  import opened Fat32Model
  import opened Fat32Passes

  // ------------------------------------------------------------------ passes that go past the range

  /** The bytes of a pass go past the end of the range. */
  ghost predicate Over(p: Pass, length: nat) { p.to + p.bytes > length }

  ghost predicate Overruns(ps: seq<Pass>, length: nat) { exists x :: 0 <= x < |ps| && Over(ps[x], length) }

  lemma OverrunsStep(ps: seq<Pass>, length: nat)
    ensures Overruns(ps, length) <==> ps != [] && (Over(ps[0], length) || Overruns(ps[1..], length))
  {
    hide Over;
    if ps != [] {
      var rest := ps[1..];
      if x :| 0 <= x < |rest| && Over(rest[x], length) {
        assert Over(ps[x + 1], length);
      }
      if x :| 0 < x < |ps| && Over(ps[x], length) {
        assert Over(rest[x - 1], length);
      }
    }
  }

  /** The range from position `i`, `d` bytes into the sector, ends strictly inside the later run that starts behind `k`
      clusters, and the pass over that run does not run out of clusters. */
  ghost predicate EndsInside(fs: Fs, cs: seq<nat>, i: nat, d: nat, length: nat, k: nat) {
    && 0 < k && i + k < |cs| && cs[i + k] != cs[i + k - 1] + 1
    && var n := RunLength(cs, i + k);
       && Times(k, fs.BytesPerCluster()) < length + d < Times(k + n, fs.BytesPerCluster())
       && (i + k + n < |cs| || length <= Times(n, fs.BytesPerCluster()))
  }

  /** No run that starts `k` clusters or more behind position `i` is one the range ends inside. */
  ghost predicate NoneInside(fs: Fs, cs: seq<nat>, i: nat, d: nat, length: nat, k: nat) {
    forall j :: k <= j ==> !EndsInside(fs, cs, i, d, length, j)
  }

  lemma TimesMonotone(k: nat, n: nat, size: nat)
    requires k <= n
    ensures Times(k, size) <= Times(n, size)
  {
    TimesAdd(k, n - k, size);
  }

  /** A run that ends at or behind the range, or at the end of the chain, is the last one to look at. */
  lemma NoRunBehind(fs: Fs, cs: seq<nat>, i: nat, d: nat, length: nat, k: nat)
    requires i + k < |cs|
    requires i + k + RunLength(cs, i + k) >= |cs|
          || length + d <= Times(k + RunLength(cs, i + k), fs.BytesPerCluster())
    ensures NoneInside(fs, cs, i, d, length, k + 1)
  {
    hide RunLength, Times, Fs.BytesPerCluster;
    var n := RunLength(cs, i + k);
    forall j | k + 1 <= j
      ensures !EndsInside(fs, cs, i, d, length, j)
    {
      if EndsInside(fs, cs, i, d, length, j) {
        JumpBehindRun(cs, i + k, j - k);
        TimesMonotone(k + n, j, fs.BytesPerCluster());
      }
    }
  }

  /** No run starts inside another one. */
  lemma NoRunWithin(fs: Fs, cs: seq<nat>, i: nat, d: nat, length: nat, k: nat)
    requires i + k < |cs|
    ensures NoneInside(fs, cs, i, d, length, k + 1)
       <==> NoneInside(fs, cs, i, d, length, k + RunLength(cs, i + k))
  {
    hide RunLength, Times, Fs.BytesPerCluster;
    RunPositive(cs, i + k);
    forall j | k + 1 <= j < k + RunLength(cs, i + k)
      ensures !EndsInside(fs, cs, i, d, length, j)
    {
      if EndsInside(fs, cs, i, d, length, j) {
        JumpBehindRun(cs, i + k, j - k);
      }
    }
  }

  /** From the pass over the run behind `k` clusters on: it goes past the range exactly when the range ends inside that
      run or a later one. */
  lemma {:induction false} LaterOverruns(fs: Fs, cs: seq<nat>, i: nat, d: nat, k: nat, done: nat, length: nat)
    requires fs.Valid() && AllClusters(cs) && 0 < k && i + k < |cs| && cs[i + k] != cs[i + k - 1] + 1
    requires fs.BytesPerCluster() > 0 && 0 < done < length && done + d == Times(k, fs.BytesPerCluster())
    ensures Overruns(Passes(fs, cs, i + k, 0, done, length), length) <==> !NoneInside(fs, cs, i, d, length, k)
    decreases |cs| - k
  {
    hide RunLength, Times, Fs.BytesPerCluster, Clusters, Passes, PassAt, Overruns, ClusterAddress, NoneInside;
    var bpc, n, ps := fs.BytesPerCluster(), RunLength(cs, i + k), Passes(fs, cs, i + k, 0, done, length);
    RunPositive(cs, i + k);
    TimesAdd(k, n, bpc);
    PassesNext(fs, cs, i + k, 0, done, length);
    OverrunsStep(ps, length);
    NoneInsideStep(fs, cs, i, d, length, k);
    if length <= Times(n, bpc) {
      assert EndsInside(fs, cs, i, d, length, k);
    } else {
      NoRunWithin(fs, cs, i, d, length, k);
      if i + k + n < |cs| && done + Times(n, bpc) < length {
        RunEndsInJump(cs, i + k);
        assert ps[1..] == Passes(fs, cs, i + k + n, 0, done + Times(n, bpc), length);
        LaterOverruns(fs, cs, i, d, k + n, done + Times(n, bpc), length);
      } else {
        NoRunBehind(fs, cs, i, d, length, k);
        if ps != [] && !Over(ps[0], length) {
          OverrunsStep(ps[1..], length);
        }
      }
    }
  }

  lemma NoneInsideStep(fs: Fs, cs: seq<nat>, i: nat, d: nat, length: nat, k: nat)
    ensures NoneInside(fs, cs, i, d, length, k)
       <==> !EndsInside(fs, cs, i, d, length, k) && NoneInside(fs, cs, i, d, length, k + 1)
  {
    hide EndsInside;
  }

  /** Which transfers go past their range, and hence fail: those whose range ends strictly inside a later run, if
      another run follows or the length would fit in that one. */
  lemma OverrunsIff(fs: Fs, cs: seq<nat>, i: nat, offset: nat, length: nat)
    requires fs.Valid() && AllClusters(cs) && i < |cs| && offset < fs.BytesPerCluster() && length > 0
    ensures Overruns(Passes(fs, cs, i, offset, 0, length), length)
       <==> exists k :: EndsInside(fs, cs, i, RestOffset(fs, offset), length, k)
  {
    hide RunLength, Times, Fs.BytesPerCluster, Clusters, Passes, PassAt, Overruns, RestOffset, ClusterAddress,
      NoneInside;
    var bpc, n, d := fs.BytesPerCluster(), RunLength(cs, i), RestOffset(fs, offset);
    var ps := Passes(fs, cs, i, offset, 0, length);
    RestBelow(fs, offset);
    RunPositive(cs, i);
    TimesStep(0, n, bpc);
    PassesNext(fs, cs, i, offset, 0, length);
    OverrunsStep(ps, length);
    NoRunWithin(fs, cs, i, d, length, 0);
    NoneInsideIff(fs, cs, i, d, length);
    if i + n < |cs| && length + d > Times(n, bpc) {
      RunEndsInJump(cs, i);
      assert ps[1..] == Passes(fs, cs, i + n, 0, Times(n, bpc) - d, length);
      LaterOverruns(fs, cs, i, d, n, Times(n, bpc) - d, length);
    } else {
      NoRunBehind(fs, cs, i, d, length, 0);
      if ps != [] {
        OverrunsStep(ps[1..], length);
      }
    }
  }

  lemma NoneInsideIff(fs: Fs, cs: seq<nat>, i: nat, d: nat, length: nat)
    ensures NoneInside(fs, cs, i, d, length, 1) <==> !exists k :: EndsInside(fs, cs, i, d, length, k)
  {
  }

  /** Transfers that complete do not. */
  lemma {:induction false} CompleteStays(fs: Fs, cs: seq<nat>, i: nat, offset: nat, done: nat, length: nat)
    requires fs.Valid() && AllClusters(cs) && i < |cs| && offset < fs.BytesPerCluster()
    requires Completes(fs, cs, i, RestOffset(fs, offset), done, length)
    ensures !Overruns(Passes(fs, cs, i, offset, done, length), length)
    decreases |cs| - i
  {
    hide Completes, Passes, PassAt, PassClusters, PassBytes, Fs.BytesPerCluster, RestOffset, Overruns, ClusterAddress;
    PassesStep(fs, cs, i, offset, done, length);
    var ps, p := Passes(fs, cs, i, offset, done, length), PassAt(fs, cs, i, offset, done, length);
    var next := i + PassClusters(fs, cs, i, p.rest, length);
    OverrunsStep(ps, length);
    if done + p.bytes == length {
      OverrunsStep([], length);
      assert ps[1..] == [];
    } else {
      if done + p.bytes > length {
        TooMuch(fs, cs, next, done + p.bytes, length);
      }
      assert ps[1..] == Passes(fs, cs, next, 0, done + p.bytes, length);
      CompleteStays(fs, cs, next, 0, done + p.bytes, length);
    }
  }

  ghost predicate RangeEndsInside(fs: Fs, cs: seq<nat>, offset: nat, length: nat)
    requires fs.Valid()
  {
    exists k :: EndsInside(fs, cs, Pos(fs, offset), RestOffset(fs, Off(fs, offset)), length, k)
  }

  lemma RangeOverruns(fs: Fs, cs: seq<nat>, offset: nat, length: nat)
    requires fs.Valid() && AllClusters(cs) && Pos(fs, offset) < |cs| && length > 0
    ensures Overruns(RangePasses(fs, cs, offset, length), length) <==> RangeEndsInside(fs, cs, offset, length)
    ensures RangeEndsInside(fs, cs, offset, length) ==> !RangeCompletes(fs, cs, offset, length)
  {
    hide Overruns, EndsInside, Pos, Off, RestOffset, Fs.BytesPerCluster, Completes, Passes;
    Position(fs, offset);
    var i, o := Pos(fs, offset), Off(fs, offset);
    OverrunsIff(fs, cs, i, o, length);
    if RangeCompletes(fs, cs, offset, length) {
      CompleteStays(fs, cs, i, o, 0, length);
    }
  }

  // ------------------------------------------------------------------ memory

  lemma WholeSectors(fs: Fs, length: nat)
    requires fs.Valid() && length > 0
    ensures length % fs.bytesPerSector == 0 <==> SectorsFor(fs, length) * fs.bytesPerSector == length
  {
    var bps, q := fs.bytesPerSector, length / fs.bytesPerSector;
    QuotientRemainder(length, bps);
    if length % bps == 0 {
      DivUnique(length - 1, bps, q - 1, bps - 1);
    } else {
      MultipleMod(SectorsFor(fs, length), bps);
    }
  }

  /** Bytes in memory that a pass of `read` writes. */
  function FillSize(p: Pass): nat { if p.rest != 0 then p.bytes else p.size }

  /** A direct pass fills whole sectors: more than its bytes exactly if it ends the range inside a sector. */
  lemma FillSizeIs(fs: Fs, cs: seq<nat>, i: nat, offset: nat, done: nat, length: nat)
    requires fs.Valid() && AllClusters(cs) && i < |cs| && offset < fs.BytesPerCluster() && length > 0
    ensures var p, fit := PassAt(fs, cs, i, offset, done, length), Times(RunLength(cs, i), fs.BytesPerCluster());
      && FillSize(p) >= p.bytes
      && (FillSize(p) == p.bytes <==> length + p.rest > fit || p.rest != 0 || length % fs.bytesPerSector == 0)
  {
    hide RunLength, Times, Fs.BytesPerCluster, SectorsFor, RestOffset, ClusterAddress;
    WholeSectors(fs, length);
    TimesSectors(fs, RunLength(cs, i));
  }

  lemma FillsIs(p: Pass, buffer: nat, a: nat)
    ensures Fills(p, buffer, a) <==> buffer + p.to <= a < buffer + p.to + FillSize(p)
  {
  }

  /** A transfer that goes past its range writes the byte behind the range. */
  lemma {:induction false} OverrunFills(fs: Fs, cs: seq<nat>, i: nat, offset: nat, done: nat, length: nat, buffer: nat)
    requires fs.Valid() && AllClusters(cs) && i < |cs| && offset < fs.BytesPerCluster() && done <= length
    requires length > 0 && Overruns(Passes(fs, cs, i, offset, done, length), length)
    ensures Filled(Passes(fs, cs, i, offset, done, length), buffer, buffer + length)
    decreases |cs| - i
  {
    hide Passes, PassAt, PassFails, PassClusters, PassBytes, Fs.BytesPerCluster, RestOffset, ClusterAddress, Overruns,
      Fills, Filled, FillSize, Times, RunLength;
    PassesNext(fs, cs, i, offset, done, length);
    FillSizeIs(fs, cs, i, offset, done, length);
    var ps, p := Passes(fs, cs, i, offset, done, length), PassAt(fs, cs, i, offset, done, length);
    OverrunsStep(ps, length);
    FilledStep(ps, buffer, buffer + length);
    FillsIs(p, buffer, buffer + length);
    if !Over(p, length) {
      OverrunsStep(ps[1..], length);
      var next := i + PassClusters(fs, cs, i, p.rest, length);
      assert ps[1..] == Passes(fs, cs, next, 0, done + p.bytes, length);
      OverrunFills(fs, cs, next, 0, done + p.bytes, length, buffer);
    }
  }

  /** Behind the first pass every other transfer stays in its range. */
  lemma {:induction false} LaterFills(fs: Fs, cs: seq<nat>, i: nat, done: nat, length: nat, buffer: nat, a: nat)
    requires fs.Valid() && AllClusters(cs) && i < |cs| && fs.BytesPerCluster() > 0 && 0 < done < length
    requires !Overruns(Passes(fs, cs, i, 0, done, length), length)
    requires Filled(Passes(fs, cs, i, 0, done, length), buffer, a)
    ensures buffer + done <= a < buffer + length
    decreases |cs| - i
  {
    hide Passes, PassAt, PassClusters, Fs.BytesPerCluster, RestOffset, ClusterAddress, Overruns, Fills, Filled,
      FillSize, Times, RunLength;
    PassesNext(fs, cs, i, 0, done, length);
    FillSizeIs(fs, cs, i, 0, done, length);
    var ps, p := Passes(fs, cs, i, 0, done, length), PassAt(fs, cs, i, 0, done, length);
    OverrunsStep(ps, length);
    FilledStep(ps, buffer, a);
    FillsIs(p, buffer, a);
    if !Fills(p, buffer, a) {
      FilledStep(ps[1..], buffer, a);
      var next := i + PassClusters(fs, cs, i, p.rest, length);
      assert ps[1..] == Passes(fs, cs, next, 0, done + p.bytes, length);
      LaterFills(fs, cs, next, done + p.bytes, length, buffer, a);
    }
  }

  /** `read`, whether or not it succeeds, writes no memory outside the wanted bytes. */
  ghost predicate ReadStays(fs: Fs, cs: seq<nat>, offset: nat, length: nat, buffer: nat)
    requires fs.Valid() && AllClusters(cs) && Pos(fs, offset) < |cs|
  {
    forall a: nat :: Filled(RangePasses(fs, cs, offset, length), buffer, a) ==> buffer <= a < buffer + length
  }

  /** That is so exactly if the range does not end inside a later run of the chain, and a direct read of a range in one
      run is of whole sectors. */
  lemma ReadStaysIff(fs: Fs, cs: seq<nat>, offset: nat, length: nat, buffer: nat)
    requires fs.Valid() && AllClusters(cs) && Pos(fs, offset) < |cs| && length > 0
    ensures var i, d := Pos(fs, offset), RestOffset(fs, Off(fs, offset));
      ReadStays(fs, cs, offset, length, buffer) <==>
        && !RangeEndsInside(fs, cs, offset, length)
        && (d != 0 || length > Times(RunLength(cs, i), fs.BytesPerCluster()) || length % fs.bytesPerSector == 0)
  {
    hide Overruns, RangeEndsInside, Pos, Off, RestOffset, Fs.BytesPerCluster, Passes, PassAt, Filled, Fills, FillSize,
      Times, RunLength, RangePasses, PassClusters;
    RangeIs(fs, cs, offset, length);
    RangeOverruns(fs, cs, offset, length);
    var i, o, ps := Pos(fs, offset), Off(fs, offset), RangePasses(fs, cs, offset, length);
    PassesNext(fs, cs, i, o, 0, length);
    RestBelow(fs, o);
    PassFits(fs, cs, i, RestOffset(fs, o), length);
    FillSizeIs(fs, cs, i, o, 0, length);
    OverrunsStep(ps, length);
    if Overruns(ps, length) {
      OverrunFills(fs, cs, i, o, 0, length, buffer);
    } else {
      var p := PassAt(fs, cs, i, o, 0, length);
      forall a: nat | Filled(ps, buffer, a)
        ensures buffer <= a && (a < buffer + length || Fills(p, buffer, a))
      {
        FilledStep(ps, buffer, a);
        if !Fills(p, buffer, a) {
          FilledStep(ps[1..], buffer, a);
          assert ps[1..] == Passes(fs, cs, i + PassClusters(fs, cs, i, p.rest, length), 0, p.bytes, length);
          LaterFills(fs, cs, i + PassClusters(fs, cs, i, p.rest, length), p.bytes, length, buffer, a);
        }
        FillsIs(p, buffer, a);
      }
      forall a: nat
        ensures Fills(p, buffer, a) <==> buffer <= a < buffer + FillSize(p)
      {
        FillsIs(p, buffer, a);
      }
      FilledStep(ps, buffer, buffer + length);
    }
  }

  // ------------------------------------------------------------------ the disk

  /** With whole sectors to write, a pass that stays in its run transfers its bytes and no others. */
  lemma ExactPass(fs: Fs, cs: seq<nat>, i: nat, offset: nat, done: nat, length: nat)
    requires fs.Valid() && AllClusters(cs) && i < |cs| && offset < fs.BytesPerCluster()
    requires length > 0 && length % fs.bytesPerSector == 0 && RestOffset(fs, offset) == 0
    requires SkipSectors(fs, offset) == 0 || offset + length <= Times(RunLength(cs, i), fs.BytesPerCluster())
    ensures var p := PassAt(fs, cs, i, offset, done, length); p.size == p.bytes && p.to == done
  {
    hide RunLength, Times, Fs.BytesPerCluster, SkipSectors, RestOffset, SectorsFor, ClusterAddress;
    WholeSectors(fs, length);
    TimesSectors(fs, RunLength(cs, i));
    RunPositive(cs, i);
    TimesStep(0, RunLength(cs, i), fs.BytesPerCluster());
  }

  /** Address `a` holds a byte of the range `[offset, offset + length)` of the file. */
  ghost predicate InRange(fs: Fs, cs: seq<nat>, offset: nat, length: nat, a: nat)
    requires AllClusters(cs)
  {
    exists q: nat :: ByteInRange(fs, cs, offset, length, q, a)
  }

  /** It is a byte of cluster number `q` of the chain. */
  ghost predicate ByteInRange(fs: Fs, cs: seq<nat>, offset: nat, length: nat, q: nat, a: nat)
    requires AllClusters(cs)
  {
    InCluster(fs, cs, q, a)
    && offset <= Times(q, fs.BytesPerCluster()) + (a - ClusterAddress(fs, cs[q])) < offset + length
  }

  /** A write of whole sectors that stays in its runs and does not go past its range covers bytes of the range only. */
  lemma {:induction false} CoversRange(fs: Fs, cs: seq<nat>, i: nat, offset: nat, done: nat, length: nat,
                                       start: nat, a: nat)
    returns (q: nat)
    requires fs.Valid() && AllClusters(cs) && i < |cs| && offset < fs.BytesPerCluster()
    requires done < length && length % fs.bytesPerSector == 0 && RestOffset(fs, offset) == 0
    requires start + done == Times(i, fs.BytesPerCluster()) + offset
    requires SkipSectors(fs, offset) == 0 || offset + length <= Times(RunLength(cs, i), fs.BytesPerCluster())
    requires Touched(Passes(fs, cs, i, offset, done, length), a)
    requires !Overruns(Passes(fs, cs, i, offset, done, length), length)
    ensures ByteInRange(fs, cs, start, length, q, a)
    decreases |cs| - i
  {
    hide PassAt, PassFails, PassClusters, PassBytes, Fs.BytesPerCluster, RestOffset, ClusterAddress, RunLength, Times,
      SkipSectors, Passes, Touched, InCluster, Overruns;
    PassInRun(fs, cs, i, offset, length);
    PassesNext(fs, cs, i, offset, done, length);
    ExactPass(fs, cs, i, offset, done, length);
    var ps, p := Passes(fs, cs, i, offset, done, length), PassAt(fs, cs, i, offset, done, length);
    OverrunsStep(ps, length);
    TouchedStep(ps, a);
    if Covers(p, a) {
      q := RunCluster(fs, cs, i, offset + (a - p.from));
    } else {
      TouchedStep(ps[1..], a);
      var next := i + PassClusters(fs, cs, i, 0, length);
      assert ps[1..] == Passes(fs, cs, next, 0, done + p.bytes, length);
      NextPassStart(fs, cs, i, offset, done, length);
      q := CoversRange(fs, cs, next, 0, done + p.bytes, length, start, a);
    }
  }

  /** One that goes past its range overwrites the byte of the file behind the range. */
  lemma {:induction false} OverrunTouches(fs: Fs, entry: nat, cs: seq<nat>, i: nat, offset: nat, done: nat, length: nat,
                                          start: nat)
    returns (a: nat)
    requires fs.Valid() && IsChain(fs, entry, cs) && AllClusters(cs) && i < |cs| && offset < fs.BytesPerCluster()
    requires done < length && RestOffset(fs, offset) == 0 && start + done == Times(i, fs.BytesPerCluster()) + offset
    requires SkipSectors(fs, offset) == 0 || offset + length <= Times(RunLength(cs, i), fs.BytesPerCluster())
    requires Overruns(Passes(fs, cs, i, offset, done, length), length)
    ensures Touched(Passes(fs, cs, i, offset, done, length), a) && !InRange(fs, cs, start, length, a)
    decreases |cs| - i
  {
    hide PassAt, PassFails, PassClusters, PassBytes, Fs.BytesPerCluster, RestOffset, ClusterAddress, RunLength, Times,
      SkipSectors, Passes, Touched, InCluster, Overruns, IsChain;
    PassInRun(fs, cs, i, offset, length);
    PassesNext(fs, cs, i, offset, done, length);
    var ps, p := Passes(fs, cs, i, offset, done, length), PassAt(fs, cs, i, offset, done, length);
    OverrunsStep(ps, length);
    if Over(p, length) {
      a := ClusterAddress(fs, cs[i]) + offset + (length - done);
      TouchedStep(ps, a);
      var q := RunCluster(fs, cs, i, offset + (length - done));
      forall q': nat
        ensures !ByteInRange(fs, cs, start, length, q', a)
      {
        if ByteInRange(fs, cs, start, length, q', a) {
          ClustersDisjoint(fs, entry, cs, q, q', a);
        }
      }
    } else {
      OverrunsStep(ps[1..], length);
      var next := i + PassClusters(fs, cs, i, 0, length);
      assert ps[1..] == Passes(fs, cs, next, 0, done + p.bytes, length);
      NextPassStart(fs, cs, i, offset, done, length);
      a := OverrunTouches(fs, entry, cs, next, 0, done + p.bytes, length, start);
      TouchedStep(ps, a);
    }
  }

  /** `write`, whether or not it succeeds, overwrites no disk byte outside the range of the file. */
  ghost predicate WriteStays(fs: Fs, cs: seq<nat>, offset: nat, length: nat)
    requires fs.Valid() && AllClusters(cs) && Pos(fs, offset) < |cs|
  {
    forall a: nat :: Touched(RangePasses(fs, cs, offset, length), a) ==> InRange(fs, cs, offset, length, a)
  }

  /** For whole sectors from the first sector of a cluster on, or in one run, that is so exactly if the range does not
      end inside a later run of the chain. */
  lemma WriteStaysIff(fs: Fs, entry: nat, cs: seq<nat>, offset: nat, length: nat)
    requires fs.Valid() && IsChain(fs, entry, cs) && AllClusters(cs) && Pos(fs, offset) < |cs|
    requires length > 0 && length % fs.bytesPerSector == 0 && RestOffset(fs, Off(fs, offset)) == 0
    requires SkipSectors(fs, Off(fs, offset)) == 0 || InOneRun(fs, cs, offset, length)
    ensures WriteStays(fs, cs, offset, length) <==> !RangeEndsInside(fs, cs, offset, length)
  {
    hide Overruns, RangeEndsInside, Pos, Off, RestOffset, Fs.BytesPerCluster, Passes, Touched, InRange, Times,
      RunLength, RangePasses, SkipSectors, IsChain;
    RangeIs(fs, cs, offset, length);
    RangeOverruns(fs, cs, offset, length);
    Position(fs, offset);
    var i, o, ps := Pos(fs, offset), Off(fs, offset), RangePasses(fs, cs, offset, length);
    TimesIs(i, fs.BytesPerCluster());
    if Overruns(ps, length) {
      var a := OverrunTouches(fs, entry, cs, i, o, 0, length, offset);
    } else {
      forall a: nat | Touched(ps, a)
        ensures InRange(fs, cs, offset, length, a)
      {
        var q := CoversRange(fs, cs, i, o, 0, length, offset, a);
        InRangeAt(fs, cs, offset, length, q, a);
      }
    }
  }

  lemma InRangeAt(fs: Fs, cs: seq<nat>, offset: nat, length: nat, q: nat, a: nat)
    requires AllClusters(cs) && ByteInRange(fs, cs, offset, length, q, a)
    ensures InRange(fs, cs, offset, length, a)
  {
  }

  /** Writing whole sectors of a fitting range leaves every other byte of the disk as it was. */
  lemma FitsFrame(fs: Fs, entry: nat, cs: seq<nat>, offset: nat, length: nat,
                  disk: Store, m: Store, buffer: nat, a: nat)
    requires fs.Valid() && IsChain(fs, entry, cs) && AllClusters(cs) && Pos(fs, offset) < |cs| && length > 0
    requires length % fs.bytesPerSector == 0 && Fits(fs, cs, offset, length) && RestOffset(fs, Off(fs, offset)) == 0
    requires !InRange(fs, cs, offset, length, a)
    ensures ByteAt(WriteOut(m, disk, buffer, RangePasses(fs, cs, offset, length)), a) == ByteAt(disk, a)
  {
    hide RangeEndsInside, Pos, Off, RestOffset, InOneRun, EndsAtJump, RangePasses, SkipSectors, IsChain, InRange,
      RangeCompletes, Touched, WriteOut, ByteAt;
    FitsCompletes(fs, cs, offset, length);
    RangeOverruns(fs, cs, offset, length);
    WriteStaysIff(fs, entry, cs, offset, length);
    var x := WriteOutByte(m, disk, buffer, RangePasses(fs, cs, offset, length), a);
  }

  // ------------------------------------------------------------------ the rest of the volume

  /** Every pass begins behind the last copy of the FAT. */
  lemma {:induction false} PassesInData(fs: Fs, cs: seq<nat>, i: nat, offset: nat, done: nat, length: nat, x: nat)
    requires fs.Valid() && AllClusters(cs) && i < |cs| && offset < fs.BytesPerCluster()
    requires x < |Passes(fs, cs, i, offset, done, length)|
    ensures Passes(fs, cs, i, offset, done, length)[x].from >= DataStart(fs)
    decreases |cs| - i
  {
    hide Passes, PassAt, PassFails, PassClusters, PassBytes, Fs.BytesPerCluster, RestOffset, ClusterAddress, DataStart;
    PassesNext(fs, cs, i, offset, done, length);
    RestBelow(fs, offset);
    ClusterInData(fs, cs[i]);
    var ps, p := Passes(fs, cs, i, offset, done, length), PassAt(fs, cs, i, offset, done, length);
    if x > 0 {
      var next := i + PassClusters(fs, cs, i, p.rest, length);
      assert ps[1..] == Passes(fs, cs, next, 0, done + p.bytes, length);
      PassesInData(fs, cs, next, 0, done + p.bytes, length, x - 1);
    }
  }

  /** `write`, whether or not it succeeds and however far it comes, leaves the reserved sectors, every copy of the FAT
      and whatever is in front of the volume as they were. */
  lemma WriteKeepsFats(fs: Fs, cs: seq<nat>, offset: nat, length: nat, made: seq<Pass>,
                       disk: Store, m: Store, buffer: nat, a: nat)
    requires fs.Valid() && AllClusters(cs) && Pos(fs, offset) < |cs| && made <= RangePasses(fs, cs, offset, length)
    requires a < DataStart(fs)
    ensures ByteAt(WriteOut(m, disk, buffer, made), a) == ByteAt(disk, a)
  {
    hide Passes, RangePasses, Pos, Off, Fs.BytesPerCluster, DataStart, WriteOut, ByteAt, Touched;
    RangeIs(fs, cs, offset, length);
    var x := WriteOutByte(m, disk, buffer, made, a);
    if x < |made| {
      PassesInData(fs, cs, Pos(fs, offset), Off(fs, offset), 0, length, x);
    }
  }

  // ------------------------------------------------------------------ an input on which both go past the range

  /** The first two of the four one-sector clusters 2, 4, 5 and 6: the transfer fails, but only after a second pass of
      two sectors. */
  lemma OverrunExample(fs: Fs)
    requires fs.bytesPerSector == 512 && fs.sectorsPerCluster == 1 && fs.lbaSize > 0
    ensures Pos(fs, 0) == 0 && RangeEndsInside(fs, [2, 4, 5, 6], 0, 1024) && !RangeCompletes(fs, [2, 4, 5, 6], 0, 1024)
    ensures RangePasses(fs, [2, 4, 5, 6], 0, 1024)
         == [Pass(ClusterAddress(fs, 2), 512, 0, 0, 512), Pass(ClusterAddress(fs, 4), 1024, 0, 512, 1024)]
  {
    hide ClusterAddress, EndsInside, Passes;
    var cs := [2, 4, 5, 6];
    Position(fs, 0);
    FourClusters();
    PassesNext(fs, cs, 0, 0, 0, 1024);
    PassesNext(fs, cs, 1, 0, 512, 1024);
    SecondRun(fs);
    RangeOverruns(fs, cs, 0, 1024);
  }

  lemma FourClusters()
    ensures RunLength([2, 4, 5, 6], 0) == 1 && RunLength([2, 4, 5, 6], 1) == 3
  {
    var cs := [2, 4, 5, 6];
    assert RunLength(cs, 3) == 1 && RunLength(cs, 2) == 2;
  }

  lemma SecondRun(fs: Fs)
    requires fs.bytesPerSector == 512 && fs.sectorsPerCluster == 1 && fs.lbaSize > 0
    ensures EndsInside(fs, [2, 4, 5, 6], 0, 0, 1024, 1)
  {
    FourClusters();
  }

  /** Reading it puts the third cluster of the file behind the range in memory. */
  lemma OverrunReadExample(fs: Fs, disk: Store, m: Store, buffer: nat)
    requires fs.bytesPerSector == 512 && fs.sectorsPerCluster == 1 && fs.lbaSize > 0
    ensures Pos(fs, 0) == 0 && !RangeCompletes(fs, [2, 4, 5, 6], 0, 1024)
    ensures ByteAt(ReadBack(disk, m, buffer, RangePasses(fs, [2, 4, 5, 6], 0, 1024)), buffer + 1024)
         == ByteAt(disk, ClusterAddress(fs, 5))
  {
    hide ClusterAddress, ReadBack, ByteAt, Filled, RangePasses, RangeCompletes, Pos, RangeEndsInside;
    OverrunExample(fs);
    var ps := RangePasses(fs, [2, 4, 5, 6], 0, 1024);
    FilledStep(ps, buffer, buffer + 1024);
    FilledStep(ps[1..], buffer, buffer + 1024);
    var x := ReadBackByte(disk, m, buffer, ps, buffer + 1024);
    SectorShift(fs, 4, 1);
  }

  /** Writing it overwrites the third cluster, which is not in the range, with what is behind the buffer. */
  lemma OverrunWriteExample(fs: Fs, disk: Store, m: Store, buffer: nat)
    requires fs.bytesPerSector == 512 && fs.sectorsPerCluster == 1 && fs.lbaSize > 0
    ensures Pos(fs, 0) == 0 && !RangeCompletes(fs, [2, 4, 5, 6], 0, 1024)
    ensures !InRange(fs, [2, 4, 5, 6], 0, 1024, ClusterAddress(fs, 5))
    ensures ByteAt(WriteOut(m, disk, buffer, RangePasses(fs, [2, 4, 5, 6], 0, 1024)), ClusterAddress(fs, 5))
         == ByteAt(m, buffer + 1024)
  {
    hide ClusterAddress, WriteOut, ByteAt, Touched, RangePasses, RangeCompletes, Pos, RangeEndsInside;
    OverrunExample(fs);
    var cs, a := [2, 4, 5, 6], ClusterAddress(fs, 5);
    var ps := RangePasses(fs, cs, 0, 1024);
    SectorShift(fs, 2, 3);
    SectorShift(fs, 4, 1);
    TouchedStep(ps, a);
    TouchedStep(ps[1..], a);
    var x := WriteOutByte(m, disk, buffer, ps, a);
    forall q: nat
      ensures !ByteInRange(fs, cs, 0, 1024, q, a)
    {
      if q < |cs| && cs[q] < 5 {
        ClustersApart(fs, cs[q], 5);
      } else if q < |cs| && cs[q] > 5 {
        ClustersApart(fs, 5, cs[q]);
      }
    }
  }
}

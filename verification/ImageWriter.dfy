/** The copy loop of src/gondar.cc: an image goes to a drive in sector-sized chunks, each tried
    up to three times, on a drive that may fail in any way. */
module ImageWriter {
  import DivMod

  type Byte = nat

  const DD_BUFFER_SIZE: nat := 65536
  const WRITE_RETRIES: nat := 3
  const TWO32: nat := 0x1_0000_0000
  const TWO64: nat := 0x1_0000_0000_0000_0000

  // ---------- arithmetic ----------

  /** The smallest multiple of the sector size that is not below n. */
  function RoundUp(n: nat, sector: nat): (r: nat)
    requires sector > 0
  {
    (n + sector - 1) / sector * sector
  }

  lemma RoundUpUnique(n: nat, sector: nat, r: nat)
    requires sector > 0 && n <= r < n + sector && r % sector == 0
    ensures RoundUp(n, sector) == r
  {
    var q := r / sector;
    assert r == q * sector;
    DivMod.QuotientUnique(n + sector - 1, sector, q, n + sector - 1 - r);
  }

  lemma RoundUpMeaning(n: nat, sector: nat)
    requires sector > 0
    ensures var r := RoundUp(n, sector); n <= r < n + sector && r % sector == 0
  {
    var q, m := (n + sector - 1) / sector, (n + sector - 1) % sector;
    assert n + sector - 1 == q * sector + m;
    DivMod.QuotientUnique(q * sector, sector, q, 0);
  }

  lemma SumOfMultiples(a: nat, b: nat, sector: nat)
    requires sector > 0 && a % sector == 0 && b % sector == 0
    ensures (a + b) % sector == 0
  {
    var p, q := a / sector, b / sector;
    assert a == p * sector && b == q * sector;
    assert a + b == (p + q) * sector;
    DivMod.QuotientUnique(a + b, sector, p + q, 0);
  }

  /** Rounding a chunk that starts on a sector boundary rounds its end. */
  lemma RoundUpChunk(start: nat, n: nat, sector: nat)
    requires sector > 0 && start % sector == 0
    ensures start + RoundUp(n, sector) == RoundUp(start + n, sector)
  {
    RoundUpMeaning(n, sector);
    SumOfMultiples(start, RoundUp(n, sector), sector);
    RoundUpUnique(start + n, sector, start + RoundUp(n, sector));
  }

  lemma RoundUpMonotone(a: nat, b: nat, sector: nat)
    requires sector > 0 && a <= b && b % sector == 0
    ensures RoundUp(a, sector) <= b
  {
    RoundUpMeaning(a, sector);
    var r, q := RoundUp(a, sector), b / sector;
    assert b == q * sector;
    if r > b {
      DivMod.QuotientUnique(r, sector, q, r - b);
    }
  }

  /** Clipping in the 64- and 32-bit unsigned types of the source, then rounding up. */
  function Clipped(wb: nat, count: nat, target: nat, sector: nat): (r: int)
    requires sector > 0
  {
    var n := if wb + count > target then (target - wb) % TWO64 % TWO32 else count;
    if n % sector != 0 then RoundUp(n, sector) % TWO32 else n
  }

  /** Once the copy is past the target, the clipped size underflows, and rounding it up to a
      sector size that divides 2^32 brings it back to zero. */
  lemma ClippedPastTarget(wb: nat, count: nat, target: nat, sector: nat)
    requires 0 < sector <= TWO32 && TWO32 % sector == 0 && target < TWO64 && 0 < count
    requires target <= wb < target + sector
    ensures Clipped(wb, count, target, sector) == 0
  {
    var d := wb - target;
    if d == 0 {
      DivMod.SmallDiv(0, sector);
    } else {
      assert (target - wb) % TWO64 == TWO64 - d by { DivMod.QuotientUnique(-d, TWO64, -1, TWO64 - d); }
      assert (TWO64 - d) % TWO32 == TWO32 - d by { DivMod.QuotientUnique(TWO64 - d, TWO32, TWO32 - 1, TWO32 - d); }
      var q := TWO32 / sector;
      assert TWO32 == q * sector;
      DivMod.QuotientUnique(TWO32 - d, sector, q - 1, sector - d);
      RoundUpUnique(TWO32 - d, sector, TWO32);
    }
  }

  /** A chunk within the target. */
  lemma ClippedWithin(wb: nat, count: nat, target: nat, sector: nat, size: nat)
    requires 0 < sector && wb % sector == 0 && size % sector == 0 && size < TWO32 && target < TWO64
    requires 0 < count <= size && wb < target
    ensures var n := if wb + count > target then target - wb else count;
            && Clipped(wb, count, target, sector) == RoundUp(n, sector)
            && 0 < n <= RoundUp(n, sector) <= size && RoundUp(n, sector) % sector == 0
            && wb + RoundUp(n, sector) == RoundUp(wb + n, sector)
            && (n == size ==> RoundUp(n, sector) == size)
  {
    var n := if wb + count > target then target - wb else count;
    DivMod.SmallDiv(n, TWO64);
    DivMod.SmallDiv(n, TWO32);
    RoundUpMeaning(n, sector);
    RoundUpMonotone(n, size, sector);
    RoundUpChunk(wb, n, sector);
    DivMod.SmallDiv(RoundUp(n, sector), TWO32);
    if n % sector == 0 {
      RoundUpUnique(n, sector, n);
    }
  }

  // ---------- the drive ----------

  /** What the hardware makes of one write: done, or not done, and then reporting anything but a
      complete write, leaving any bytes in the target range and the file position anywhere. */
  datatype Outcome = Done | Failed(success: bool, count: nat, residue: seq<Byte>, position: nat)

  function Min(a: nat, b: nat): nat { if a <= b then a else b }

  /** Data laid over the bytes from a position on, clipped to a length and to the drive. */
  function Overlay(bytes: seq<Byte>, at: nat, data: seq<Byte>, limit: nat): (r: seq<Byte>)
    ensures |r| == |bytes|
    ensures forall i :: 0 <= i < |bytes| && (i < at || at + limit <= i) ==> r[i] == bytes[i]
    ensures forall i :: 0 <= i < |data| && i < limit && at + i < |bytes| ==> r[at + i] == data[i]
  {
    if at >= |bytes| then bytes
    else
      var n := Min(Min(|data|, limit), |bytes| - at);
      bytes[..at] + data[..n] + bytes[at + n..]
  }

  /** A write attempted at an offset. */
  datatype Attempt = Attempt(offset: nat, length: nat)

  class Drive {
    var bytes: seq<Byte>
    var position: nat
    var log: seq<Attempt>
    var seeks: nat
    const writes: nat -> Outcome
    const seekWorks: nat -> bool

    constructor (bytes: seq<Byte>, position: nat, writes: nat -> Outcome, seekWorks: nat -> bool)
      ensures this.bytes == bytes && this.position == position && log == [] && seeks == 0
      ensures this.writes == writes && this.seekWorks == seekWorks
    {
      this.bytes, this.position, log, seeks := bytes, position, [], 0;
      this.writes, this.seekWorks := writes, seekWorks;
    }

    method WriteFile(data: seq<Byte>) returns (s: bool, written: nat)
      modifies this`bytes, this`position, this`log
      ensures log == old(log) + [Attempt(old(position), |data|)]
      ensures |bytes| == |old(bytes)|
      ensures forall i :: 0 <= i < |bytes| && (i < old(position) || old(position) + |data| <= i) ==>
        bytes[i] == old(bytes)[i]
      ensures s && written == |data| ==>
        && position == old(position) + |data| <= |bytes|
        && forall i :: 0 <= i < |data| ==> bytes[old(position) + i] == data[i]
      ensures writes(|old(log)|).Done? && old(position) + |data| <= |bytes| ==> s && written == |data|
    {
      var outcome := writes(|log|);
      log := log + [Attempt(position, |data|)];
      if outcome.Done? && position + |data| <= |bytes| {
        bytes := Overlay(bytes, position, data, |data|);
        position := position + |data|;
        return true, |data|;
      }
      if outcome.Failed? {
        bytes := Overlay(bytes, position, outcome.residue, |data|);
        position := outcome.position;
        return outcome.success && outcome.count != |data|, outcome.count;
      }
      return false, 0;
    }

    method SetFilePointer(at: nat) returns (s: bool)
      modifies this`position, this`seeks
      ensures seeks == old(seeks) + 1 && s == seekWorks(old(seeks))
      ensures position == if s then at else old(position)
    {
      s := seekWorks(seeks);
      seeks := seeks + 1;
      if s {
        position := at;
      }
    }
  }

  // ---------- what the writer promises ----------

  /** The drive never fails three writes in a row, and seeks always work. */
  ghost predicate Persists(writes: nat -> Outcome, seekWorks: nat -> bool) {
    && (forall k: nat :: !GivesUp(writes, k))
    && (forall k: nat :: seekWorks(k))
  }

  predicate GivesUp(writes: nat -> Outcome, k: nat) {
    writes(k).Failed? && writes(k + 1).Failed? && writes(k + 2).Failed?
  }

  /** Every attempt is on sector boundaries and within the image rounded up to a sector. */
  predicate Aligned(log: seq<Attempt>, sector: nat, end: nat)
    requires sector > 0
  {
    forall i :: 0 <= i < |log| ==>
      log[i].offset % sector == 0 && log[i].length % sector == 0 && log[i].offset + log[i].length <= end
  }

  /** Attempts go forward, and at most three in a row put data at the same offset. */
  predicate Bounded(log: seq<Attempt>) {
    && (forall i, j :: 0 <= i < j < |log| ==> log[i].offset <= log[j].offset)
    && (forall i, j :: 0 <= i && i + WRITE_RETRIES <= j < |log| && log[j].length > 0 ==> log[i].offset < log[j].offset)
  }

  /** The first n bytes are the image's. */
  predicate Copied(bytes: seq<Byte>, image: seq<Byte>, n: nat) {
    n <= |bytes| && n <= |image| && bytes[..n] == image[..n]
  }

  predicate UntouchedFrom(bytes: seq<Byte>, before: seq<Byte>, end: nat) {
    |bytes| == |before| && forall i :: end <= i < |bytes| ==> bytes[i] == before[i]
  }

  function EffectiveSector(sectorSize: nat): nat { if sectorSize < 512 then 512 else sectorSize }

  /** The number of image bytes to copy. */
  function Wanted(image: seq<Byte>, imageSize: nat): nat { Min(|image|, imageSize) }

  /** The attempts of earlier chunks: before wb, as long as there is something left to copy. */
  predicate Earlier(log: seq<Attempt>, wb: nat, end: nat) {
    forall i :: 0 <= i < |log| ==> log[i].offset <= wb && (wb < end ==> log[i].offset < wb)
  }

  /** The log of the attempts so far and i attempts at the current chunk. */
  ghost predicate Trying(log: seq<Attempt>, base: nat, i: nat, wb: nat, n: nat) {
    |log| == base + i && forall k :: base <= k < |log| ==> log[k] == Attempt(wb, n)
  }

  lemma AttemptAdded(log: seq<Attempt>, base: nat, i: nat, wb: nat, n: nat, end: nat, sector: nat)
    requires sector > 0 && Aligned(log, sector, end) && Bounded(log) && Trying(log, base, i, wb, n) && i < WRITE_RETRIES
    requires Earlier(log[..base], wb, end) && (n > 0 ==> wb < end)
    requires wb % sector == 0 && n % sector == 0 && wb + n <= end
    ensures var next := log + [Attempt(wb, n)];
            Aligned(next, sector, end) && Bounded(next) && Trying(next, base, i + 1, wb, n)
            && next[..base] == log[..base]
  {
    var next := log + [Attempt(wb, n)];
    forall k | 0 <= k < |log|
      ensures log[k].offset <= wb && (k + WRITE_RETRIES <= |log| && n > 0 ==> log[k].offset < wb)
    {
      if k < base {
        assert log[k] == log[..base][k];
      }
    }
  }

  /** The log at the start of a chunk. */
  ghost predicate Orderly(log: seq<Attempt>, wb: nat, end: nat, sector: nat) {
    sector > 0 && Aligned(log, sector, end) && Bounded(log) && Earlier(log, wb, end)
  }

  /** A chunk on sector boundaries within the image; empty only at its end. */
  ghost predicate ChunkFits(wb: nat, n: nat, end: nat, sector: nat) {
    sector > 0 && wb % sector == 0 && n % sector == 0 && wb + n <= end && (n > 0 <==> wb < end)
  }

  /** Only the bytes of [from, until) may differ. */
  ghost predicate OnlyWithin(bytes: seq<Byte>, before: seq<Byte>, from: nat, until: nat) {
    |bytes| == |before| && forall i :: 0 <= i < |bytes| && (i < from || until <= i) ==> bytes[i] == before[i]
  }

  /** The inner loop of WriteDrive: up to three attempts at one chunk, going back to its start
      after a failure. */
  method TryChunk(drive: Drive, data: seq<Byte>, wb: nat, ghost sector: nat, ghost end: nat) returns (ok: bool)
    requires ChunkFits(wb, |data|, end, sector)
    modifies drive
    ensures |drive.bytes| == |old(drive.bytes)|
    ensures old(drive.position) == wb && old(Orderly(drive.log, wb, end, sector)) ==>
      && OnlyWithin(drive.bytes, old(drive.bytes), wb, wb + |data|)
      && Orderly(drive.log, wb + |data|, end, sector) && |drive.log| <= old(|drive.log|) + WRITE_RETRIES
      && (ok ==> drive.position == wb + |data| <= |drive.bytes| && drive.bytes[wb..wb + |data|] == data)
      && (Persists(drive.writes, drive.seekWorks) && wb + |data| <= |drive.bytes| ==> ok)
  {
    hide Aligned, Bounded, Earlier, Trying;
    ghost var base := |drive.log|;
    ghost var before := drive.log;
    ghost var placed := drive.position == wb && Orderly(before, wb, end, sector);
    var i := 0;
    assert placed ==> drive.log[..base] == before;
    NoneTried(before, wb, |data|);
    while i < WRITE_RETRIES
      invariant i < WRITE_RETRIES && |drive.bytes| == |old(drive.bytes)|
      invariant placed ==>
        && drive.position == wb && OnlyWithin(drive.bytes, old(drive.bytes), wb, wb + |data|)
        && Aligned(drive.log, sector, end) && Bounded(drive.log) && Trying(drive.log, base, i, wb, |data|)
        && |drive.log| == base + i && drive.log[..base] == before
        && (wb + |data| <= |drive.bytes| ==> forall k :: base <= k < base + i ==> drive.writes(k).Failed?)
    {
      if placed {
        AttemptAdded(drive.log, base, i, wb, |data|, end, sector);
        Concluded(drive.log + [Attempt(wb, |data|)], before, base, i + 1, wb, |data|, end);
      }
      var s, written := drive.WriteFile(data);
      if s && written == |data| {
        return true;
      }
      if i < WRITE_RETRIES - 1 {
        var back := drive.SetFilePointer(wb);
        if !back {
          return false;
        }
      } else {
        assert placed && wb + |data| <= |drive.bytes| ==> GivesUp(drive.writes, base);
        return false;
      }
      i := i + 1;
    }
  }

  lemma NoneTried(log: seq<Attempt>, wb: nat, n: nat)
    ensures Trying(log, |log|, 0, wb, n)
  {}

  lemma Concluded(log: seq<Attempt>, before: seq<Attempt>, base: nat, i: nat, wb: nat, n: nat, end: nat)
    requires base == |before| && Trying(log, base, i, wb, n) && log[..base] == before
    requires Earlier(before, wb, end) && (n == 0 ==> wb >= end)
    ensures Earlier(log, wb + n, end)
  {
    forall k | 0 <= k < |log|
      ensures log[k].offset <= wb + n && (wb + n < end ==> log[k].offset < wb + n)
    {
      if k < base {
        assert log[k] == before[k];
      }
    }
  }

  /** ReadFile on a file that reads full until its end: the next bytes, into the front of the
      buffer. */
  method ReadFile(image: seq<Byte>, at: nat, buffer: array<Byte>) returns (count: nat)
    requires at <= |image|
    modifies buffer
    ensures count == Min(buffer.Length, |image| - at) && buffer[..count] == image[at..at + count]
    ensures buffer[count..] == old(buffer[count..])
  {
    count := Min(buffer.Length, |image| - at);
    for i := 0 to count
      invariant buffer[..i] == image[at..at + i]
      invariant buffer[count..] == old(buffer[count..])
    {
      buffer[i] := image[at + i];
    }
  }

  /** Where the copy stands: at the same place in image and drive, or done. */
  ghost predicate Progress(wb: nat, at: nat, image: seq<Byte>, imageSize: nat, sector: nat) {
    var wanted := Wanted(image, imageSize);
    && sector > 0 && at <= |image| && wb % sector == 0
    && (if wb == RoundUp(wanted, sector) then wanted == |image| ==> at == |image| else wb == at < wanted)
  }

  /** The next chunk fits, and takes the copy as far as it goes. */
  lemma NextChunk(wb: nat, at: nat, count: nat, image: seq<Byte>, imageSize: nat, sector: nat, size: nat)
    requires Progress(wb, at, image, imageSize, sector) && imageSize < TWO64
    requires sector <= size < TWO32 && TWO32 % sector == 0 && size % sector == 0
    requires 0 < count == Min(size, |image| - at)
    ensures var n := Clipped(wb, count, imageSize, sector); var wanted := Wanted(image, imageSize);
            && 0 <= n <= size
            && ChunkFits(wb, n, RoundUp(wanted, sector), sector)
            && Progress(wb + n, at + count, image, imageSize, sector)
            && (n > 0 ==> wb == at <= wanted && Min(wb + n, wanted) <= at + count)
  {
    hide RoundUp, Clipped;
    var wanted := Wanted(image, imageSize);
    var end := RoundUp(wanted, sector);
    RoundUpMeaning(wanted, sector);
    if wb == end {
      ClippedPastTarget(wb, count, imageSize, sector);
      DivMod.SmallDiv(0, sector);
    } else {
      ClippedWithin(wb, count, imageSize, sector, size);
      var n := Clipped(wb, count, imageSize, sector);
      SumOfMultiples(wb, n, sector);
      if wb + n == wanted {
        RoundUpUnique(wanted, sector, wanted);
      }
    }
  }

  /** Writing a chunk extends the copy. */
  lemma CopyExtends(before: seq<Byte>, bytes: seq<Byte>, image: seq<Byte>, data: seq<Byte>, wb: nat, wanted: nat,
                    count: nat)
    requires Copied(before, image, Min(wb, wanted)) && wanted <= |image| && wb + |data| <= |bytes|
    requires OnlyWithin(bytes, before, wb, wb + |data|) && bytes[wb..wb + |data|] == data
    requires |data| > 0 ==> wb <= wanted && Min(wb + |data|, wanted) <= wb + count <= |image| && count <= |image|
    requires forall i :: 0 <= i < |data| && i < count && wb + i < |image| ==> data[i] == image[wb + i]
    ensures Copied(bytes, image, Min(wb + |data|, wanted))
  {
    var n := Min(wb + |data|, wanted);
    forall i | 0 <= i < n
      ensures bytes[i] == image[i]
    {
      if i < Min(wb, wanted) {
        assert before[..Min(wb, wanted)][i] == image[..Min(wb, wanted)][i];
      } else {
        assert bytes[wb..wb + |data|][i - wb] == data[i - wb];
      }
    }
  }

  /** When the loop ends, as much as the drive's size allows has been copied. */
  lemma CopiedEnough(bytes: seq<Byte>, image: seq<Byte>, wb: nat, at: nat, driveSize: nat, imageSize: nat, sector: nat)
    requires Progress(wb, at, image, imageSize, sector) && (wb >= driveSize || at == |image|)
    requires Copied(bytes, image, Min(wb, Wanted(image, imageSize)))
    ensures Copied(bytes, image, Min(Wanted(image, imageSize), driveSize))
  {
    hide RoundUp;
    var wanted := Wanted(image, imageSize);
    RoundUpMeaning(wanted, sector);
    var m, n := Min(wb, wanted), Min(wanted, driveSize);
    assert bytes[..n] == bytes[..m][..n] && image[..n] == image[..m][..n];
  }

  lemma FromBuffer(buffer: seq<Byte>, data: seq<Byte>, image: seq<Byte>, at: nat, count: nat)
    requires count <= |buffer| && at + count <= |image| && buffer[..count] == image[at..at + count]
    requires |data| <= |buffer| && data == buffer[..|data|]
    ensures forall i :: 0 <= i < |data| && i < count && at + i < |image| ==> data[i] == image[at + i]
  {
    forall i | 0 <= i < |data| && i < count && at + i < |image|
      ensures data[i] == image[at + i]
    {
      assert buffer[..count][i] == image[at..at + count][i];
    }
  }

  lemma StillUntouched(bytes: seq<Byte>, middle: seq<Byte>, before: seq<Byte>, from: nat, until: nat, end: nat)
    requires OnlyWithin(bytes, middle, from, until) && UntouchedFrom(middle, before, end) && until <= end
    ensures UntouchedFrom(bytes, before, end)
  {}

  lemma Start(image: seq<Byte>, imageSize: nat, sector: nat, bytes: seq<Byte>, size: nat)
    requires 512 <= sector < TWO32 && size == RoundUp(DD_BUFFER_SIZE, sector)
    ensures Progress(0, 0, image, imageSize, sector) && sector <= size < TWO32 && size % sector == 0
    ensures var end := RoundUp(Wanted(image, imageSize), sector);
            Orderly([], 0, end, sector) && Copied(bytes, image, 0) && UntouchedFrom(bytes, bytes, end)
  {
    hide RoundUp;
    RoundUpMeaning(DD_BUFFER_SIZE, sector);
    RoundUpMeaning(Wanted(image, imageSize), sector);
    DivMod.SmallDiv(0, sector);
    if Wanted(image, imageSize) == 0 { RoundUpUnique(0, sector, 0); }
    if size < sector { DivMod.SmallDiv(size, sector); }
    if sector > DD_BUFFER_SIZE {
      DivMod.QuotientUnique(sector, sector, 1, 0);
      RoundUpUnique(DD_BUFFER_SIZE, sector, sector);
    }
  }

  /** WriteDrive: whatever the writes and seeks do, once the drive is rewound nothing from the
      end of the image, rounded up to a sector, onward is touched, every attempt is aligned and
      the attempts are bounded; success means that the image is on the drive; and it succeeds
      if there is room, reads and seeks work and no three writes in a row fail. */
  method WriteDrive(drive: Drive, image: seq<Byte>, readWorks: nat -> bool, sectorSize: nat, driveSize: nat,
                    imageSize: nat)
    returns (ok: bool)
    requires sectorSize < TWO32 && TWO32 % EffectiveSector(sectorSize) == 0 && imageSize < TWO64 && drive.log == []
    modifies drive
    ensures |drive.bytes| == |old(drive.bytes)|
    ensures var sector := EffectiveSector(sectorSize); var wanted := Wanted(image, imageSize);
            old(drive.position) == 0 || drive.seekWorks(old(drive.seeks)) ==>
              && UntouchedFrom(drive.bytes, old(drive.bytes), RoundUp(wanted, sector))
              && Aligned(drive.log, sector, RoundUp(wanted, sector)) && Bounded(drive.log)
              && (ok ==> Copied(drive.bytes, image, Min(wanted, driveSize)))
              && (Persists(drive.writes, drive.seekWorks) && RoundUp(wanted, sector) <= |drive.bytes| ==>
                    ok || exists k: nat :: !readWorks(k))
  {
    hide RoundUp, Clipped, Aligned, Bounded, Earlier, Copied, UntouchedFrom, OnlyWithin, Progress;
    var rewound := drive.SetFilePointer(0);
    ghost var placed := drive.position == 0;
    var sector := if sectorSize < 512 then 512 else sectorSize;
    var size := RoundUp(DD_BUFFER_SIZE, sector);
    var buffer := new Byte[size];
    ghost var wanted := Wanted(image, imageSize);
    ghost var end := RoundUp(wanted, sector);
    var wb, at, calls := 0, 0, 0;
    Start(image, imageSize, sector, drive.bytes, size);
    while wb < driveSize
      invariant |drive.bytes| == |old(drive.bytes)|
      invariant at <= |image| && Progress(wb, at, image, imageSize, sector)
      invariant placed ==>
        && drive.position == wb && Orderly(drive.log, wb, end, sector)
        && UntouchedFrom(drive.bytes, old(drive.bytes), end) && Copied(drive.bytes, image, Min(wb, wanted))
      decreases |image| - at
    {
      if !readWorks(calls) {
        return false;
      }
      calls := calls + 1;
      var count := ReadFile(image, at, buffer);
      if count == 0 {
        break;
      }
      NextChunk(wb, at, count, image, imageSize, sector, size);
      var n := Clipped(wb, count, imageSize, sector);
      ghost var before := drive.bytes;
      var data := buffer[..n];
      var done := TryChunk(drive, data, wb, sector, end);
      if placed {
        StillUntouched(drive.bytes, before, old(drive.bytes), wb, wb + n, end);
      }
      if !done {
        return false;
      }
      if placed {
        FromBuffer(buffer[..], data, image, at, count);
        CopyExtends(before, drive.bytes, image, data, wb, wanted, count);
      }
      at := at + count;
      wb := wb + n;
    }
    if placed {
      CopiedEnough(drive.bytes, image, wb, at, driveSize, imageSize, sector);
    }
    ok := true;
  }
}

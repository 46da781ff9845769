/** Power loss while saving: SaveGPTData interrupted after any number of sector writes. */
module GptCrash {
  import opened Crc32
  import opened GptFormat
  import opened GptStore
  import opened GptRecovery
  import DivMod

  // ---------- what a prefix of the writes leaves on the disk ----------

  predicate Touches(writes: seq<Write>, lba: nat) {
    exists i :: 0 <= i < |writes| && writes[i].lba == lba
  }

  lemma {:induction false} ApplyElsewhere(disk: seq<Sector>, writes: seq<Write>, lba: nat)
    requires lba < |disk| && !Touches(writes, lba)
    ensures Apply(disk, writes)[lba] == disk[lba]
    decreases writes
  {
    if writes != [] {
      var next := if writes[0].lba < |disk| then disk[writes[0].lba := writes[0].data] else disk;
      assert writes[0].lba != lba;
      forall i | 0 <= i < |writes[1..]|
        ensures writes[1..][i].lba != lba
      {
        assert writes[1..][i] == writes[i + 1];
      }
      ApplyElsewhere(next, writes[1..], lba);
    }
  }

  lemma SectorsForStep(count: nat, blockSize: BlockSize)
    ensures count == 0 ==> SectorsFor(count, blockSize) == 0
    ensures 0 < count <= blockSize ==> SectorsFor(count, blockSize) == 1
    ensures count > blockSize ==> SectorsFor(count, blockSize) == 1 + SectorsFor(count - blockSize, blockSize)
  {
    DivMod.DivStep(count, blockSize);
    if count < blockSize {
      DivMod.SmallDiv(count, blockSize);
    } else if count == blockSize {
      DivMod.SmallDiv(0, blockSize);
    }
  }

  /** Writing a table covers exactly its sectors, in order. */
  lemma {:induction false} TableWritesShape(lba: nat, bytes: seq<Byte>, blockSize: BlockSize)
    ensures
      var w := TableWrites(lba, bytes, blockSize);
      && |w| == SectorsFor(|bytes|, blockSize)
      && forall i :: 0 <= i < |w| ==> w[i].lba == lba + i && |w[i].data| == blockSize
    decreases |bytes|
  {
    SectorsForStep(|bytes|, blockSize);
    if |bytes| > blockSize {
      TableWritesShape(lba + 1, bytes[blockSize..], blockSize);
    }
  }

  /** Two disks that agree on the sectors of a read give the same bytes. */
  lemma {:induction false} ReadSame(a: seq<Sector>, b: seq<Sector>, lba: nat, count: nat, blockSize: BlockSize)
    requires |a| == |b|
    requires forall i :: lba <= i < lba + SectorsFor(count, blockSize) && i < |a| ==> a[i] == b[i]
    ensures ReadBytes(a, lba, count, blockSize) == ReadBytes(b, lba, count, blockSize)
    decreases count
  {
    SectorsForStep(count, blockSize);
    if count > blockSize && lba < |a| {
      ReadSame(a, b, lba + 1, count - blockSize, blockSize);
    }
  }

  /** Which byte of which sector a read returns. */
  lemma {:induction false} ByteRead(disk: seq<Sector>, lba: nat, count: nat, k: nat, blockSize: BlockSize)
    requires k < count && lba + k / blockSize < |disk|
    ensures ReadBytes(disk, lba, count, blockSize)[k] == Clip(disk[lba + k / blockSize], blockSize)[k % blockSize]
    decreases count
  {
    hide Clip;
    if k < blockSize {
      DivMod.SmallDiv(k, blockSize);
    } else {
      DivMod.DivStep(k, blockSize);
      assert (k - blockSize) / blockSize >= 0;
      ByteRead(disk, lba + 1, count - blockSize, k - blockSize, blockSize);
    }
  }

  /** Every write of the list is to a sector in lo..hi. */
  predicate Inside(writes: seq<Write>, lo: nat, hi: nat) {
    forall i :: 0 <= i < |writes| ==> lo <= writes[i].lba < hi
  }

  lemma ApplyOutside(disk: seq<Sector>, writes: seq<Write>, lo: nat, hi: nat)
    requires Inside(writes, lo, hi)
    ensures forall x :: 0 <= x < |disk| && !(lo <= x < hi) ==> Apply(disk, writes)[x] == disk[x]
  {
    forall x | 0 <= x < |disk| && !(lo <= x < hi)
      ensures Apply(disk, writes)[x] == disk[x]
    {
      ApplyElsewhere(disk, writes, x);
    }
  }

  /** The first j blocks of the new bytes followed by the remaining old ones. */
  function Mix(news: seq<Byte>, olds: seq<Byte>, j: nat, blockSize: BlockSize): (bytes: seq<Byte>)
    ensures |news| == |olds| ==> |bytes| == |news|
    decreases |news|
  {
    if j == 0 then olds
    else if |news| <= blockSize || |olds| <= blockSize then news
    else news[..blockSize] + Mix(news[blockSize..], olds[blockSize..], j - 1, blockSize)
  }

  lemma {:induction false} MixWhole(news: seq<Byte>, olds: seq<Byte>, j: nat, blockSize: BlockSize)
    requires |news| == |olds| && j >= SectorsFor(|news|, blockSize)
    ensures Mix(news, olds, j, blockSize) == news
    decreases |news|
  {
    SectorsForStep(|news|, blockSize);
    if |news| > blockSize {
      MixWhole(news[blockSize..], olds[blockSize..], j - 1, blockSize);
    }
  }

  /** Reading a table after j of its sectors have been rewritten. */
  lemma {:induction false} TornRead(disk: seq<Sector>, lba: nat, bytes: seq<Byte>, j: nat, blockSize: BlockSize)
    requires lba + SectorsFor(|bytes|, blockSize) <= |disk|
    requires j <= |TableWrites(lba, bytes, blockSize)|
    ensures ReadBytes(Apply(disk, TableWrites(lba, bytes, blockSize)[..j]), lba, |bytes|, blockSize)
         == Mix(bytes, ReadBytes(disk, lba, |bytes|, blockSize), j, blockSize)
    decreases |bytes|
  {
    hide Clip, Apply, TableWrites, ReadBytes, Mix;
    SectorsForStep(|bytes|, blockSize);
    var olds := ReadBytes(disk, lba, |bytes|, blockSize);
    if j == 0 {
      NothingApplied(disk, TableWrites(lba, bytes, blockSize));
      MixNone(bytes, olds, blockSize);
    } else {
      var d := Apply(disk, TableWrites(lba, bytes, blockSize)[..j]);
      var next := FirstApplied(disk, lba, bytes, j, blockSize);
      ReadFirst(d, lba, |bytes|, blockSize);
      ReadFirst(disk, lba, |bytes|, blockSize);
      MixFirst(bytes, olds, j, blockSize);
      if |bytes| > blockSize {
        TornRead(next, lba + 1, bytes[blockSize..], j - 1, blockSize);
        ReadSame(disk, next, lba + 1, |bytes| - blockSize, blockSize);
      } else {
        ClipPrefix(bytes, blockSize);
      }
    }
  }

  lemma ReadFirst(disk: seq<Sector>, lba: nat, count: nat, blockSize: BlockSize)
    requires 0 < count && lba < |disk|
    ensures ReadBytes(disk, lba, count, blockSize) ==
      if count <= blockSize then Clip(disk[lba], blockSize)[..count]
      else Clip(disk[lba], blockSize) + ReadBytes(disk, lba + 1, count - blockSize, blockSize)
    ensures count > blockSize ==>
      ReadBytes(disk, lba, count, blockSize)[blockSize..] == ReadBytes(disk, lba + 1, count - blockSize, blockSize)
  {
    hide Clip;
  }

  lemma MixFirst(news: seq<Byte>, olds: seq<Byte>, j: nat, blockSize: BlockSize)
    requires |news| == |olds| && j > 0
    ensures Mix(news, olds, j, blockSize) ==
      if |news| <= blockSize then news
      else news[..blockSize] + Mix(news[blockSize..], olds[blockSize..], j - 1, blockSize)
  {}

  lemma NothingApplied(disk: seq<Sector>, writes: seq<Write>)
    ensures Apply(disk, writes[..0]) == disk
  {}

  /** The first of j > 0 sector writes of a table, and that the others leave it alone. */
  lemma FirstApplied(disk: seq<Sector>, lba: nat, bytes: seq<Byte>, j: nat, blockSize: BlockSize)
    returns (next: seq<Sector>)
    requires lba + SectorsFor(|bytes|, blockSize) <= |disk| && 0 < j <= |TableWrites(lba, bytes, blockSize)|
    ensures
      var d := Apply(disk, TableWrites(lba, bytes, blockSize)[..j]);
      var data := if |bytes| <= blockSize then Clip(bytes, blockSize) else bytes[..blockSize];
      && bytes != [] && lba < |disk| && next == disk[lba := data]
      && Clip(d[lba], blockSize) == data
      && (|bytes| > blockSize ==>
            && j - 1 <= |TableWrites(lba + 1, bytes[blockSize..], blockSize)|
            && d == Apply(next, TableWrites(lba + 1, bytes[blockSize..], blockSize)[..j - 1]))
  {
    hide Clip;
    SectorsForStep(|bytes|, blockSize);
    TableWritesShape(lba, bytes, blockSize);
    var writes := TableWrites(lba, bytes, blockSize);
    next := disk[lba := writes[0].data];
    var rest := writes[1..][..j - 1];
    assert writes[..j][1..] == rest;
    assert Inside(rest, lba + 1, |disk|) by { assert forall i :: 0 <= i < |rest| ==> rest[i] == writes[i + 1]; }
    ApplyOutside(next, rest, lba + 1, |disk|);
    ClipWhole(writes[0].data, blockSize);
  }

  lemma ClipWhole(bytes: seq<Byte>, n: nat)
    requires |bytes| == n
    ensures Clip(bytes, n) == bytes
  {}

  lemma ClipPrefix(bytes: seq<Byte>, n: nat)
    requires |bytes| <= n
    ensures Clip(bytes, n)[..|bytes|] == bytes
  {}

  // ---------- freshly sealed headers ----------

  lemma {:induction false} Power256IsPower2(n: nat)
    ensures Power256(n) == Power2(8 * n)
  {
    if n > 0 {
      Power256IsPower2(n - 1);
      assert Power2(8 * n) == 2 * Power2(8 * n - 1) == 4 * Power2(8 * n - 2) == 8 * Power2(8 * n - 3);
      assert Power2(8 * n - 3) == 2 * Power2(8 * n - 4) == 4 * Power2(8 * n - 5) == 8 * Power2(8 * n - 6);
      assert Power2(8 * n - 6) == 4 * Power2(8 * n - 8);
    }
  }

  lemma ChecksumFits(message: seq<Byte>)
    ensures Checksum(message) < Power256(4)
  {
    hide FeedAll, BitsOf, Power2;
    NumberBelow(Xor(FeedAll(ONES, BitsOf(message)), ONES));
    Power256IsPower2(4);
  }

  lemma StoreInHeader(h: Header, crc: nat, size: nat, sum: nat)
    requires HeaderFits(h) && crc < Power256(4) && size <= HEADER_RECORD && sum < Power256(4)
    ensures HeaderFits(h.(headerSize := size, partitionEntriesCRC := crc, headerCRC := sum))
  {
    var r := h.(headerSize := size, partitionEntriesCRC := crc, headerCRC := sum);
    assert Power256(4) == 4294967296;
    forall i | 0 <= i < 15
      ensures HeaderValues(r)[i] < Power256(HEADER_WIDTHS[i])
    {
      assert HeaderValues(h)[i] < Power256(HEADER_WIDTHS[i]);
    }
  }

  /** Which seal a load accepts, whatever the size field says: one over that many bytes if it is from 92
      up to the sector size, and one over 92 bytes otherwise. */
  lemma SealedAnySize(h: Header, size: nat, blockSize: BlockSize)
    requires size == (if 92 <= h.headerSize <= blockSize then h.headerSize else 92) && size <= HEADER_RECORD
    ensures CheckHeaderCRC(Sealed(h, size), blockSize)
    ensures forall sum: nat :: CheckHeaderCRC(h.(headerCRC := sum), blockSize) <==> sum == Sealed(h, size).headerCRC
  {
    hide Checksum, HeaderBytes;
    forall sum: nat
      ensures h.(headerCRC := sum).(headerCRC := 0) == h.(headerCRC := 0)
    {}
  }

  /** A sealed header passes the load-time check when its size field is in range. */
  lemma SealedValid(h: Header, blockSize: BlockSize)
    requires HEADER_SIZE <= h.headerSize <= HEADER_RECORD
    requires h.signature == GPT_SIGNATURE && h.revision == SUPPORTED_REVISION
    ensures HeaderValid(Sealed(h, h.headerSize), blockSize)
  {
    hide Checksum, HeaderBytes;
    assert Sealed(h, h.headerSize).(headerCRC := 0) == h.(headerCRC := 0);
  }

  /** ... and below the minimum size the stored and the checked sum cover different bytes:
      the saved header is accepted exactly when the two sums coincide. */
  lemma UndersizedHeader(h: Header, blockSize: BlockSize)
    requires h.headerSize < HEADER_SIZE
    ensures
      var bytes := HeaderBytes(h.(headerCRC := 0));
      CheckHeaderCRC(Sealed(h, h.headerSize), blockSize) <==>
        Checksum(bytes[..HEADER_SIZE]) == Checksum(bytes[..h.headerSize])
  {
    hide Checksum, HeaderBytes;
    assert Sealed(h, h.headerSize).(headerCRC := 0) == h.(headerCRC := 0);
  }

  /** Of two such headers that differ only in the checksum of the table, in bytes the size does
      not cover, at most one is accepted. */
  lemma OneUndersizedHeader(h: Header, crc: nat, blockSize: BlockSize)
    requires h.headerSize < HEADER_SIZE
    requires Encode(crc, 4) != Encode(h.partitionEntriesCRC, 4)
    requires h.headerSize > 88 ==>
      Encode(crc, 4)[..h.headerSize - 88] == Encode(h.partitionEntriesCRC, 4)[..h.headerSize - 88]
    ensures !(CheckHeaderCRC(Sealed(h, h.headerSize), blockSize)
              && CheckHeaderCRC(Sealed(h.(partitionEntriesCRC := crc), h.headerSize), blockSize))
  {
    hide Checksum, HeaderBytes, CheckHeaderCRC, Sealed, Encode;
    var n, k := h.headerSize, h.(partitionEntriesCRC := crc);
    var x, y := h.(headerCRC := 0), k.(headerCRC := 0);
    var front, rest := TableChecksumField(x);
    var a, b := Encode(h.partitionEntriesCRC, 4), Encode(crc, 4);
    assert x == x.(partitionEntriesCRC := h.partitionEntriesCRC) && y == x.(partitionEntriesCRC := crc);
    assert HeaderBytes(x)[..HEADER_SIZE] == front + a + [] && HeaderBytes(y)[..HEADER_SIZE] == front + b + [];
    ByteBurstDetected(front, a, b, []);
    if n <= 88 {
      assert HeaderBytes(x)[..n] == front[..n] == HeaderBytes(y)[..n];
    } else {
      assert HeaderBytes(x)[..n] == front + a[..n - 88] && HeaderBytes(y)[..n] == front + b[..n - 88];
    }
    UndersizedHeader(h, blockSize);
    UndersizedHeader(k, blockSize);
  }

  /** So for every header with too small a size there is a checksum of the table with which it is
      written by a save and then refused by a load. */
  lemma UndersizedHeaderRefused(h: Header, blockSize: BlockSize) returns (crc: nat)
    requires h.headerSize < HEADER_SIZE && h.partitionEntriesCRC < TWO32
    ensures crc < TWO32 && !CheckHeaderCRC(Sealed(h.(partitionEntriesCRC := crc), h.headerSize), blockSize)
  {
    hide Checksum, HeaderBytes, CheckHeaderCRC, Sealed, Encode;
    var x := h.partitionEntriesCRC;
    if CheckHeaderCRC(Sealed(h, h.headerSize), blockSize) {
      crc := if x < 0x100_0000 then x + 0x100_0000 else x - 0x100_0000;
      LastByte(x, crc);
      OneUndersizedHeader(h, crc, blockSize);
    } else {
      crc := x;
      assert h == h.(partitionEntriesCRC := x);
    }
  }

  /** Numbers that differ by 2^24 differ in the last of four bytes only. */
  lemma LastByte(x: nat, y: nat)
    requires x < TWO32 && y < TWO32 && (y == x + 0x100_0000 || x == y + 0x100_0000)
    ensures Encode(x, 4)[..3] == Encode(y, 4)[..3] && Encode(x, 4) != Encode(y, 4)
  {
    hide Encode;
    FourBytes(x);
    FourBytes(y);
    if y == x + 0x100_0000 {
      assert y / 256 == x / 256 + 65536 && y / 256 / 256 == x / 256 / 256 + 256;
    } else {
      assert x / 256 == y / 256 + 65536 && x / 256 / 256 == y / 256 / 256 + 256;
    }
  }

  lemma FourBytes(x: nat)
    requires x < TWO32
    ensures Encode(x, 4) == [x % 256, x / 256 % 256, x / 256 / 256 % 256, x / 0x100_0000]
  {}

  // ---------- the interrupted save ----------

  predicate SameGeometry(a: Header, b: Header) {
    && a.numParts == b.numParts && a.sizeOfPartitionEntries == b.sizeOfPartitionEntries
    && a.currentLBA == b.currentLBA && a.backupLBA == b.backupLBA
    && a.firstUsableLBA == b.firstUsableLBA && a.lastUsableLBA == b.lastUsableLBA
    && a.partitionEntriesLBA == b.partitionEntriesLBA
  }

  /** An object about to be saved over a disk with headers m and s, its geometry unchanged. */
  ghost predicate SavesOver(g: Gpt, m: Header, s: Header) {
    && SameGeometry(g.main, m) && SameGeometry(g.second, s)
    && g.main.signature == g.second.signature == GPT_SIGNATURE
    && g.main.revision == g.second.revision == SUPPORTED_REVISION
    && HEADER_SIZE <= g.main.headerSize
    && HeaderFits(g.main) && HeaderFits(g.second)
    && |g.parts| == m.numParts && TableFits(g.parts)
  }

  lemma Recomputed(g: Gpt, m: Header, s: Header, blockSize: BlockSize)
    requires SavesOver(g, m, s)
    ensures
      var n := RecomputeCRCs(g);
      && n.parts == g.parts
      && SameGeometry(n.main, m) && SameGeometry(n.second, s)
      && HeaderFits(n.main) && HeaderFits(n.second)
      && HeaderValid(n.main, blockSize) && HeaderValid(n.second, blockSize)
      && n.main.partitionEntriesCRC == n.second.partitionEntriesCRC == Checksum(TableBytes(g.parts))
  {
    hide Checksum, HeaderBytes, HeaderFits, HeaderValid, TableBytes, TableFits;
    var size := if g.main.headerSize > HEADER_RECORD then HEADER_SIZE else g.main.headerSize;
    var crc := Checksum(TableBytes(g.parts));
    var a := g.main.(headerSize := size, partitionEntriesCRC := crc);
    var b := g.second.(headerSize := size, partitionEntriesCRC := crc);
    ChecksumFits(TableBytes(g.parts));
    ChecksumFits(HeaderBytes(a.(headerCRC := 0))[..size]);
    ChecksumFits(HeaderBytes(b.(headerCRC := 0))[..size]);
    StoreInHeader(g.main, crc, size, Checksum(HeaderBytes(a.(headerCRC := 0))[..size]));
    StoreInHeader(g.second, crc, size, Checksum(HeaderBytes(b.(headerCRC := 0))[..size]));
    SealedValid(a, blockSize);
    SealedValid(b, blockSize);
  }

  /** The first k writes of a save, region by region. */
  lemma SavePrefix(a: seq<Write>, b: Write, c: seq<Write>, d: Write, e: Write, k: nat)
    ensures Take(a + [b] + c + [d] + [e], k)
         == Take(a, k) + Take([b], k - |a|) + Take(c, k - |a| - 1)
            + Take([d], k - |a| - |c| - 1) + Take([e], k - |a| - |c| - 2)
  {}

  /** Writes elsewhere do not change what a read returns. */
  lemma KeepsRead(disk: seq<Sector>, writes: seq<Write>, lo: nat, hi: nat, lba: nat, count: nat, blockSize: BlockSize)
    requires Inside(writes, lo, hi)
    requires hi <= lba || lba + SectorsFor(count, blockSize) <= lo
    ensures ReadBytes(Apply(disk, writes), lba, count, blockSize) == ReadBytes(disk, lba, count, blockSize)
  {
    ApplyOutside(disk, writes, lo, hi);
    ReadSame(Apply(disk, writes), disk, lba, count, blockSize);
  }

  lemma OneSector(blockSize: BlockSize)
    ensures SectorsFor(HEADER_RECORD, blockSize) == 1
  {
    SectorsForStep(HEADER_RECORD, blockSize);
  }

  /** A header written is the header read back. */
  lemma HeaderReadBack(disk: seq<Sector>, lba: nat, h: Header, blockSize: BlockSize)
    requires lba < |disk| && HeaderFits(h)
    ensures HeaderAt(Apply(disk, [HeaderWrite(lba, h, blockSize)]), lba, blockSize) == h
  {
    hide HeaderFits, HeaderBytes, ParseHeader, Clip;
    var data := Clip(HeaderBytes(h), blockSize);
    ApplyOne(disk, Write(lba, data));
    ClipWhole(data, blockSize);
    ClipPrefix(HeaderBytes(h), blockSize);
    ParseHeaderBytes(h);
  }

  lemma ApplyOne(disk: seq<Sector>, w: Write)
    requires w.lba < |disk|
    ensures Apply(disk, [w]) == disk[w.lba := w.data]
  {
    assert [w][1..] == [];
  }

  ghost predicate Saving(disk: seq<Sector>, n: Gpt, m: Header, s: Header, boot: Sector, blockSize: BlockSize) {
    && Standard(m, s, |disk|, blockSize) && |boot| == blockSize
    && SameGeometry(n.main, m) && SameGeometry(n.second, s)
    && HeaderFits(n.main) && HeaderFits(n.second) && |n.parts| == m.numParts
  }

  function Sectors(n: Gpt, blockSize: BlockSize): nat
  {
    SectorsFor(|TableBytes(n.parts)|, blockSize)
  }

  /** The interrupted device as the five regions written one after the other. */
  lemma InterruptedRegions(disk: seq<Sector>, n: Gpt, m: Header, s: Header, boot: Sector, k: nat, blockSize: BlockSize)
    requires Saving(disk, n, m, s, boot, blockSize)
    ensures
      var t, bytes := Sectors(n, blockSize), TableBytes(n.parts);
      var a := Apply(disk, Take(TableWrites(s.partitionEntriesLBA, bytes, blockSize), k));
      var b := Apply(a, Take([HeaderWrite(|disk| - 1, n.second, blockSize)], k - t));
      var c := Apply(b, Take(TableWrites(m.partitionEntriesLBA, bytes, blockSize), k - t - 1));
      var d := Apply(c, Take([HeaderWrite(1, n.main, blockSize)], k - 2 * t - 1));
      var e := Apply(d, Take([Write(0, boot)], k - 2 * t - 2));
      && |TableWrites(s.partitionEntriesLBA, bytes, blockSize)|
         == |TableWrites(m.partitionEntriesLBA, bytes, blockSize)| == t
      && |SaveWrites(n, boot, blockSize)| == 2 * t + 3
      && Interrupted(disk, n, boot, k, blockSize) == e
  {
    hide TableBytes, TableWrites, HeaderWrite, HeaderFits;
    var t, bytes := Sectors(n, blockSize), TableBytes(n.parts);
    var wa := TableWrites(s.partitionEntriesLBA, bytes, blockSize);
    var wc := TableWrites(m.partitionEntriesLBA, bytes, blockSize);
    var wb, wd := HeaderWrite(|disk| - 1, n.second, blockSize), HeaderWrite(1, n.main, blockSize);
    TableWritesShape(s.partitionEntriesLBA, bytes, blockSize);
    TableWritesShape(m.partitionEntriesLBA, bytes, blockSize);
    SavePrefix(wa, wb, wc, wd, Write(0, boot), k);
    var pa, pb, pc := Take(wa, k), Take([wb], k - t), Take(wc, k - t - 1);
    var pd, pe := Take([wd], k - 2 * t - 1), Take([Write(0, boot)], k - 2 * t - 2);
    ApplyConcat(disk, pa + pb + pc + pd, pe);
    ApplyConcat(disk, pa + pb + pc, pd);
    ApplyConcat(disk, pa + pb, pc);
    ApplyConcat(disk, pa, pb);
  }

  /** The pieces of an interrupted save stay in their own regions. */
  lemma Pieces(disk: seq<Sector>, n: Gpt, m: Header, s: Header, boot: Sector, k: nat, blockSize: BlockSize)
    returns (pa: seq<Write>, pb: seq<Write>, pc: seq<Write>, pd: seq<Write>, pe: seq<Write>)
    requires Saving(disk, n, m, s, boot, blockSize)
    ensures
      var t, bytes := Sectors(n, blockSize), TableBytes(n.parts);
      && pa == Take(TableWrites(s.partitionEntriesLBA, bytes, blockSize), k)
      && pb == Take([HeaderWrite(|disk| - 1, n.second, blockSize)], k - t)
      && pc == Take(TableWrites(m.partitionEntriesLBA, bytes, blockSize), k - t - 1)
      && pd == Take([HeaderWrite(1, n.main, blockSize)], k - 2 * t - 1)
      && Inside(pa, s.partitionEntriesLBA, s.partitionEntriesLBA + t) && Inside(pb, |disk| - 1, |disk|)
      && Inside(pc, m.partitionEntriesLBA, m.partitionEntriesLBA + t) && Inside(pd, 1, 2) && Inside(pe, 0, 1)
    ensures Interrupted(disk, n, boot, k, blockSize) == Apply(Apply(Apply(Apply(Apply(disk, pa), pb), pc), pd), pe)
    ensures |SaveWrites(n, boot, blockSize)| == 2 * Sectors(n, blockSize) + 3
  {
    hide TableBytes, TableWrites, HeaderFits, HeaderBytes, Apply, Interrupted;
    var t, bytes := Sectors(n, blockSize), TableBytes(n.parts);
    InterruptedRegions(disk, n, m, s, boot, k, blockSize);
    TableWritesShape(s.partitionEntriesLBA, bytes, blockSize);
    TableWritesShape(m.partitionEntriesLBA, bytes, blockSize);
    pa := Take(TableWrites(s.partitionEntriesLBA, bytes, blockSize), k);
    pb := Take([HeaderWrite(|disk| - 1, n.second, blockSize)], k - t);
    pc := Take(TableWrites(m.partitionEntriesLBA, bytes, blockSize), k - t - 1);
    pd := Take([HeaderWrite(1, n.main, blockSize)], k - 2 * t - 1);
    pe := Take([Write(0, boot)], k - 2 * t - 2);
  }

  lemma StandardSectors(disk: seq<Sector>, n: Gpt, m: Header, s: Header, boot: Sector, blockSize: BlockSize)
    requires Saving(disk, n, m, s, boot, blockSize)
    ensures Sectors(n, blockSize) == TableSectors(m.numParts, blockSize) == SectorsFor(TableSize(m), blockSize)
    ensures TableSize(m) == TableSize(s) == |TableBytes(n.parts)|
  {
    hide TableBytes, HeaderFits;
  }

  /** Header sectors change when their own write has happened, and only then. */
  lemma HeadersAfter(disk: seq<Sector>, n: Gpt, m: Header, s: Header, boot: Sector, k: nat, blockSize: BlockSize)
    requires Saving(disk, n, m, s, boot, blockSize)
    ensures
      var t, d := Sectors(n, blockSize), Interrupted(disk, n, boot, k, blockSize);
      && HeaderAt(d, 1, blockSize) == (if k > 2 * t + 1 then n.main else HeaderAt(disk, 1, blockSize))
      && HeaderAt(d, |disk| - 1, blockSize) == (if k > t then n.second else HeaderAt(disk, |disk| - 1, blockSize))
  {
    hide TableBytes, TableWrites, HeaderWrite, HeaderFits, Apply, ReadBytes, SectorsFor, Sectors, TableSectors,
         SaveWrites;
    OneSector(blockSize);
    var last := |disk| - 1;
    var pa, pb, pc, pd, pe := Pieces(disk, n, m, s, boot, k, blockSize);
    StandardSectors(disk, n, m, s, boot, blockSize);
    var t := Sectors(n, blockSize);
    var a := Apply(disk, pa);
    KeepsRead(disk, pa, s.partitionEntriesLBA, s.partitionEntriesLBA + t, 1, HEADER_RECORD, blockSize);
    KeepsRead(disk, pa, s.partitionEntriesLBA, s.partitionEntriesLBA + t, last, HEADER_RECORD, blockSize);
    var b := Apply(a, pb);
    KeepsRead(a, pb, last, |disk|, 1, HEADER_RECORD, blockSize);
    TakeHeader(a, last, n.second, k - t, blockSize);
    var c := Apply(b, pc);
    KeepsRead(b, pc, m.partitionEntriesLBA, m.partitionEntriesLBA + t, 1, HEADER_RECORD, blockSize);
    KeepsRead(b, pc, m.partitionEntriesLBA, m.partitionEntriesLBA + t, last, HEADER_RECORD, blockSize);
    var d := Apply(c, pd);
    TakeHeader(c, 1, n.main, k - 2 * t - 1, blockSize);
    KeepsRead(c, pd, 1, 2, last, HEADER_RECORD, blockSize);
    KeepsRead(d, pe, 0, 1, 1, HEADER_RECORD, blockSize);
    KeepsRead(d, pe, 0, 1, last, HEADER_RECORD, blockSize);
  }

  lemma TakeHeader(disk: seq<Sector>, lba: nat, h: Header, k: int, blockSize: BlockSize)
    requires lba < |disk| && HeaderFits(h)
    ensures
      var w := Take([HeaderWrite(lba, h, blockSize)], k);
      && HeaderAt(Apply(disk, w), lba, blockSize) == if k > 0 then h else HeaderAt(disk, lba, blockSize)
  {
    hide HeaderFits, HeaderAt, HeaderWrite;
    if k > 0 {
      HeaderReadBack(disk, lba, h, blockSize);
      assert Take([HeaderWrite(lba, h, blockSize)], k) == [HeaderWrite(lba, h, blockSize)];
    } else {
      assert Take([HeaderWrite(lba, h, blockSize)], k) == [];
    }
  }

  /** A table region holds the new blocks written so far followed by the old ones. */
  lemma TablesAfter(disk: seq<Sector>, n: Gpt, m: Header, s: Header, boot: Sector, k: nat, blockSize: BlockSize)
    requires Saving(disk, n, m, s, boot, blockSize)
    ensures
      var t, d, bytes := Sectors(n, blockSize), Interrupted(disk, n, boot, k, blockSize), TableBytes(n.parts);
      && |bytes| == |TableAt(disk, m, blockSize)| == |TableAt(disk, s, blockSize)|
      && TableAt(d, m, blockSize) == Mix(bytes, TableAt(disk, m, blockSize), Min(k - t - 1, t), blockSize)
      && TableAt(d, s, blockSize) == Mix(bytes, TableAt(disk, s, blockSize), Min(k, t), blockSize)
  {
    hide TableBytes, TableWrites, HeaderWrite, HeaderFits, Apply, ReadBytes, SectorsFor, Sectors, TableSectors,
         SaveWrites, Mix;
    var pa, pb, pc, pd, pe := Pieces(disk, n, m, s, boot, k, blockSize);
    StandardSectors(disk, n, m, s, boot, blockSize);
    var t, bytes, size := Sectors(n, blockSize), TableBytes(n.parts), TableSize(m);
    var mp, sp, last := m.partitionEntriesLBA, s.partitionEntriesLBA, |disk| - 1;
    var a := Apply(disk, pa);
    TakeTable(disk, sp, bytes, k, blockSize);
    KeepsRead(disk, pa, sp, sp + t, mp, size, blockSize);
    var b := Apply(a, pb);
    KeepsRead(a, pb, last, |disk|, mp, size, blockSize);
    KeepsRead(a, pb, last, |disk|, sp, size, blockSize);
    var c := Apply(b, pc);
    TakeTable(b, mp, bytes, k - t - 1, blockSize);
    KeepsRead(b, pc, mp, mp + t, sp, size, blockSize);
    var d := Apply(c, pd);
    KeepsRead(c, pd, 1, 2, mp, size, blockSize);
    KeepsRead(c, pd, 1, 2, sp, size, blockSize);
    KeepsRead(d, pe, 0, 1, mp, size, blockSize);
    KeepsRead(d, pe, 0, 1, sp, size, blockSize);
  }

  function Min(k: int, limit: nat): nat { if k < 0 then 0 else if k > limit then limit else k }

  lemma TakeTable(disk: seq<Sector>, lba: nat, bytes: seq<Byte>, k: int, blockSize: BlockSize)
    requires lba + SectorsFor(|bytes|, blockSize) <= |disk|
    ensures
      var d := Apply(disk, Take(TableWrites(lba, bytes, blockSize), k));
      && ReadBytes(d, lba, |bytes|, blockSize) ==
           Mix(bytes, ReadBytes(disk, lba, |bytes|, blockSize), Min(k, SectorsFor(|bytes|, blockSize)), blockSize)
  {
    hide TableWrites, ReadBytes, Mix, Apply;
    TableWritesShape(lba, bytes, blockSize);
    var w, j := TableWrites(lba, bytes, blockSize), Min(k, SectorsFor(|bytes|, blockSize));
    assert Take(w, k) == w[..j];
    TornRead(disk, lba, bytes, j, blockSize);
  }

  // ---------- theorems ----------

  /** A consistent disk, an object to be saved over it with its geometry unchanged, and a
      boot record of one sector. */
  ghost predicate Scenario(disk: seq<Sector>, m: Header, s: Header, parts: seq<Part>, g: Gpt, boot: Sector,
                           blockSize: BlockSize) {
    Consistent(disk, m, s, parts, blockSize) && SavesOver(g, m, s) && |boot| == blockSize
  }

  /** The device after SaveGPTData was interrupted following k sector writes. */
  ghost function Crashed(disk: seq<Sector>, g: Gpt, boot: Sector, k: nat, blockSize: BlockSize): (d: seq<Sector>)
    ensures |d| == |disk|
  {
    Interrupted(disk, RecomputeCRCs(g), boot, k, blockSize)
  }

  lemma CrashedReads(disk: seq<Sector>, m: Header, s: Header, parts: seq<Part>, g: Gpt, boot: Sector, k: nat,
                     blockSize: BlockSize)
    requires Scenario(disk, m, s, parts, g, boot, blockSize)
    ensures
      var t, d, n := Sectors(g, blockSize), Crashed(disk, g, boot, k, blockSize), RecomputeCRCs(g);
      && HeaderAt(d, 1, blockSize) == (if k > 2 * t + 1 then n.main else m)
      && HeaderAt(d, |disk| - 1, blockSize) == (if k > t then n.second else s)
      && |TableBytes(g.parts)| == |TableBytes(parts)|
      && TableAt(d, m, blockSize) == Mix(TableBytes(g.parts), TableBytes(parts), Min(k - t - 1, t), blockSize)
      && TableAt(d, s, blockSize) == Mix(TableBytes(g.parts), TableBytes(parts), Min(k, t), blockSize)
  {
    hide RecomputeCRCs, HeaderAt, HeaderValid, HeaderFits, TableAt, TableBytes, Checksum, Mix, Interrupted, SaveWrites,
         TableFits;
    Recomputed(g, m, s, blockSize);
    HeadersAfter(disk, RecomputeCRCs(g), m, s, boot, k, blockSize);
    TablesAfter(disk, RecomputeCRCs(g), m, s, boot, k, blockSize);
  }

  /** After k sector writes of a save with t sectors to a table, all four structures carry the
      same checksum: the headers are both old, both new, or of one checksum, and the backup and
      main table as they then are have it too. */
  predicate AllAgree(k: nat, t: nat, oldCrc: nat, newCrc: nat, backupCrc: nat, mainCrc: nat) {
    if k <= t then backupCrc == oldCrc
    else if k <= 2 * t + 1 then oldCrc == newCrc == mainCrc
    else true
  }

  /** What a load finds after an interrupted save, for every number k of sector writes done.
      Up to the backup header the old table is loaded; from the end of the main table on, the
      new one.  While the main table is half written the mixture itself is loaded, unless the
      two tables happen to have the same checksum.  Valid is reported exactly when both headers
      and both tables agree. */
  lemma LoadAfterCrash(blank: Gpt, disk: seq<Sector>, m: Header, s: Header, parts: seq<Part>,
                       g: Gpt, boot: Sector, k: nat, blockSize: BlockSize)
    requires Fresh(blank) && Scenario(disk, m, s, parts, g, boot, blockSize)
    ensures |TableBytes(g.parts)| == |TableBytes(parts)|
    ensures
      var t, r := Sectors(g, blockSize), ForceLoad(blank, Crashed(disk, g, boot, k, blockSize), blockSize).0;
      var oldCrc, newCrc := Checksum(TableBytes(parts)), Checksum(TableBytes(g.parts));
      var torn := Mix(TableBytes(g.parts), TableBytes(parts), Min(k - t - 1, t), blockSize);
      var backup := Mix(TableBytes(g.parts), TableBytes(parts), Min(k, t), blockSize);
      && (k <= t + 1 ==> r.parts == parts)
      && (k > 2 * t ==> r.parts == g.parts)
      && (t + 1 < k <= 2 * t ==>
            r.parts == if Checksum(torn) != oldCrc && oldCrc == newCrc then g.parts else ParseTable(torn))
      && r.state == (if AllAgree(k, t, oldCrc, newCrc, Checksum(backup), Checksum(torn)) then GptValid else GptCorrupt)
  {
    hide RecomputeCRCs, HeaderAt, CheckHeaderCRC, HeaderFits, TableBytes, Checksum, Mix, Crashed, SaveWrites,
         TableFits, ForceLoad, ParseTable, ReadBytes, TableSectors, Fresh, SectorsFor;
    var d, n, t := Crashed(disk, g, boot, k, blockSize), RecomputeCRCs(g), Sectors(g, blockSize);
    Recomputed(g, m, s, blockSize);
    CrashedReads(disk, m, s, parts, g, boot, k, blockSize);
    var dm, ds := if k > 2 * t + 1 then n.main else m, if k > t then n.second else s;
    assert TableAt(d, dm, blockSize) == TableAt(d, m, blockSize)
           && TableAt(d, ds, blockSize) == TableAt(d, s, blockSize);
    BothHeadersValid(blank, d, dm, ds, blockSize);
    ParseTableBytes(parts);
    ParseTableBytes(g.parts);
    MixNone(TableBytes(g.parts), TableBytes(parts), blockSize);
    MixWhole(TableBytes(g.parts), TableBytes(parts), t, blockSize);
  }

  lemma MixNone(news: seq<Byte>, olds: seq<Byte>, blockSize: BlockSize)
    requires |news| == |olds|
    ensures Mix(news, olds, 0, blockSize) == olds
  {}

  /** Crash safety with atomic regions: between two of the five region writes, the old or the
      new table is loaded, never anything else, and valid is reported only when all four
      structures agree: before the first write, from the main header on, or if the two tables
      have the same checksum. */
  lemma CrashBetweenRegions(blank: Gpt, disk: seq<Sector>, m: Header, s: Header, parts: seq<Part>,
                            g: Gpt, boot: Sector, k: nat, blockSize: BlockSize)
    requires Fresh(blank) && Scenario(disk, m, s, parts, g, boot, blockSize)
    requires
      var t := Sectors(g, blockSize);
      k in {0, t, t + 1, 2 * t + 1, 2 * t + 2, 2 * t + 3}
    ensures
      var r := ForceLoad(blank, Crashed(disk, g, boot, k, blockSize), blockSize).0;
      var t, oldCrc, newCrc := Sectors(g, blockSize), Checksum(TableBytes(parts)), Checksum(TableBytes(g.parts));
      && r.parts == (if k <= t + 1 then parts else g.parts)
      && r.state == (if k == 0 || k > 2 * t + 1 || oldCrc == newCrc then GptValid else GptCorrupt)
  {
    hide RecomputeCRCs, TableBytes, Checksum, Mix, Crashed, SaveWrites, ForceLoad, ParseTable, Fresh, HeaderFits,
         HeaderValid, HeaderAt, TableAt, Standard;
    SaveLength(disk, m, s, parts, g, boot, blockSize);
    LoadAfterCrash(blank, disk, m, s, parts, g, boot, k, blockSize);
    var t := Sectors(g, blockSize);
    MixNone(TableBytes(g.parts), TableBytes(parts), blockSize);
    MixWhole(TableBytes(g.parts), TableBytes(parts), t, blockSize);
  }

  lemma SaveLength(disk: seq<Sector>, m: Header, s: Header, parts: seq<Part>, g: Gpt, boot: Sector,
                   blockSize: BlockSize)
    requires Scenario(disk, m, s, parts, g, boot, blockSize)
    ensures |SaveWrites(RecomputeCRCs(g), boot, blockSize)| == 2 * Sectors(g, blockSize) + 3
  {
    hide RecomputeCRCs, TableBytes, HeaderFits, HeaderValid, HeaderAt, TableAt, Checksum, TableFits;
    Recomputed(g, m, s, blockSize);
    InterruptedRegions(disk, RecomputeCRCs(g), m, s, boot, 0, blockSize);
  }

  /** Torn main table, exactly: with power lost after 0 < j < t of its t sectors, the load gives
      the old or the new table if and only if the mixture is one of them, or the two tables
      share a checksum that the mixture lacks. */
  lemma TornMainTable(blank: Gpt, disk: seq<Sector>, m: Header, s: Header, parts: seq<Part>,
                      g: Gpt, boot: Sector, j: nat, blockSize: BlockSize)
    requires Fresh(blank) && Scenario(disk, m, s, parts, g, boot, blockSize)
    requires 0 < j < Sectors(g, blockSize)
    ensures
      var k := Sectors(g, blockSize) + 1 + j;
      var r := ForceLoad(blank, Crashed(disk, g, boot, k, blockSize), blockSize).0;
      var torn := Mix(TableBytes(g.parts), TableBytes(parts), j, blockSize);
      var oldCrc, newCrc := Checksum(TableBytes(parts)), Checksum(TableBytes(g.parts));
      r.parts == parts || r.parts == g.parts <==>
        torn == TableBytes(parts) || torn == TableBytes(g.parts) || (Checksum(torn) != oldCrc && oldCrc == newCrc)
  {
    hide RecomputeCRCs, TableBytes, Checksum, Mix, Crashed, SaveWrites, ForceLoad, ParseTable, Fresh, HeaderFits,
         HeaderValid, HeaderAt, TableAt, Standard, TableFits, SectorsFor;
    SaveLength(disk, m, s, parts, g, boot, blockSize);
    LoadAfterCrash(blank, disk, m, s, parts, g, boot, Sectors(g, blockSize) + 1 + j, blockSize);
    ParseTableBytes(parts);
    ParseTableBytes(g.parts);
    TableBytesParse(Mix(TableBytes(g.parts), TableBytes(parts), j, blockSize), |parts|);
  }

  /** A concrete failure: the tables differ in the two bytes on either side of the first
      sector boundary, and power is lost after the first sector of the main table.  The load
      then yields neither table, although the backup copy of the new one is complete. */
  lemma TornMainTableIsLoaded(blank: Gpt, disk: seq<Sector>, m: Header, s: Header, parts: seq<Part>,
                              g: Gpt, boot: Sector, before: seq<Byte>, a: seq<Byte>, b: seq<Byte>,
                              after: seq<Byte>, blockSize: BlockSize)
    requires Fresh(blank) && Scenario(disk, m, s, parts, g, boot, blockSize)
    requires TableBytes(parts) == before + a + after && TableBytes(g.parts) == before + b + after
    requires |before| == blockSize - 1 && |a| == |b| == 2 && a[0] != b[0] && a[1] != b[1]
    ensures
      var k := Sectors(g, blockSize) + 2;
      var r := ForceLoad(blank, Crashed(disk, g, boot, k, blockSize), blockSize).0;
      r.parts != parts && r.parts != g.parts
  {
    hide RecomputeCRCs, TableBytes, Checksum, Crashed, SaveWrites, ForceLoad, ParseTable, Fresh, HeaderFits,
         HeaderValid, HeaderAt, TableAt, Standard, TableFits;
    ByteBurstDetected(before, a, b, after);
    SectorsForStep(|TableBytes(g.parts)|, blockSize);
    SectorsForStep(|TableBytes(g.parts)| - blockSize, blockSize);
    TornMainTable(blank, disk, m, s, parts, g, boot, 1, blockSize);
    var news, olds := TableBytes(g.parts), TableBytes(parts);
    var torn := Mix(news, olds, 1, blockSize);
    assert torn == news[..blockSize] + olds[blockSize..];
    assert torn[blockSize - 1] == b[0] && torn[blockSize] == a[1];
    assert olds[blockSize - 1] == a[0] && news[blockSize] == b[1];
  }
}

/** The on-disk records of a GUID partition table (gdisk/gpt.h, gdisk/gptpart.h) and their
    byte images.  A record is a list of little-endian numbers of fixed widths; one codec with
    both round trips serves headers and partition entries. */
module GptFormat {
  import opened Crc32
  import DivMod

  // ---------- little-endian numbers ----------

  function Power256(n: nat): (p: nat)
    ensures p > 0
  {
    if n == 0 then 1 else 256 * Power256(n - 1)
  }

  function Encode(number: nat, width: nat): (bytes: seq<Byte>)
    ensures |bytes| == width
    decreases width
  {
    if width == 0 then [] else [number % 256] + Encode(number / 256, width - 1)
  }

  function Decode(bytes: seq<Byte>): (number: nat) {
    if bytes == [] then 0 else bytes[0] + 256 * Decode(bytes[1..])
  }

  lemma {:induction false} DecodeEncode(number: nat, width: nat)
    requires number < Power256(width)
    ensures Decode(Encode(number, width)) == number
    decreases width
  {
    if width > 0 {
      DecodeEncode(number / 256, width - 1);
      assert Encode(number, width)[1..] == Encode(number / 256, width - 1);
    }
  }

  lemma {:induction false} EncodeDecode(bytes: seq<Byte>)
    ensures Encode(Decode(bytes), |bytes|) == bytes
    ensures Decode(bytes) < Power256(|bytes|)
  {
    if bytes != [] {
      EncodeDecode(bytes[1..]);
      assert Decode(bytes) / 256 == Decode(bytes[1..]);
      assert bytes == [bytes[0]] + bytes[1..];
    }
  }

  /** The bytes from `at` on hold a number of the given width, its least significant byte first. */
  predicate Holds(bytes: seq<Byte>, at: nat, width: nat, number: nat) {
    at + width <= |bytes| && forall i :: 0 <= i < width ==> bytes[at + i] == number / Power256(i) % 256
  }

  lemma {:induction false} EncodedByte(number: nat, width: nat, i: nat)
    requires i < width
    ensures Encode(number, width)[i] == number / Power256(i) % 256
    decreases width
  {
    if i > 0 {
      EncodedByte(number / 256, width - 1, i - 1);
      DivMod.QuotientOfByte(number, Power256(i - 1));
    }
  }

  // ---------- records of numbers ----------

  function Total(widths: seq<nat>): (n: nat) {
    if widths == [] then 0 else widths[0] + Total(widths[1..])
  }

  /** Every value fits its width. */
  predicate Fit(values: seq<nat>, widths: seq<nat>) {
    |values| == |widths| && forall i :: 0 <= i < |values| ==> values[i] < Power256(widths[i])
  }

  function EncodeRecord(values: seq<nat>, widths: seq<nat>): (bytes: seq<Byte>)
    requires |values| == |widths|
    ensures |bytes| == Total(widths)
  {
    if widths == [] then [] else Encode(values[0], widths[0]) + EncodeRecord(values[1..], widths[1..])
  }

  function DecodeRecord(bytes: seq<Byte>, widths: seq<nat>): (values: seq<nat>)
    requires |bytes| == Total(widths)
    ensures |values| == |widths|
    decreases widths
  {
    if widths == [] then [] else [Decode(bytes[..widths[0]])] + DecodeRecord(bytes[widths[0]..], widths[1..])
  }

  /** Each value is held right behind those before it. */
  lemma {:induction false} FieldAt(values: seq<nat>, widths: seq<nat>, k: nat)
    requires |values| == |widths| && k < |widths|
    ensures Holds(EncodeRecord(values, widths), Total(widths[..k]), widths[k], values[k])
    decreases widths
  {
    hide Power256, Encode;
    var bytes, w := EncodeRecord(values, widths), widths[0];
    if k == 0 {
      forall i | 0 <= i < w
        ensures bytes[i] == values[0] / Power256(i) % 256
      {
        EncodedByte(values[0], w, i);
      }
    } else {
      FieldAt(values[1..], widths[1..], k - 1);
      assert widths[..k][1..] == widths[1..][..k - 1];
      assert bytes[w..] == EncodeRecord(values[1..], widths[1..]);
      var at := Total(widths[1..][..k - 1]);
      forall i | 0 <= i < widths[k]
        ensures bytes[w + at + i] == values[k] / Power256(i) % 256
      {
        assert bytes[w + at + i] == bytes[w..][at + i];
      }
    }
  }

  lemma TotalNext(widths: seq<nat>, k: nat)
    requires k < |widths|
    ensures Total(widths[..k + 1]) == Total(widths[..k]) + widths[k]
  {
    assert widths[..k + 1] == widths[..k] + [widths[k]];
    TotalConcat(widths[..k], [widths[k]]);
    assert Total([widths[k]]) == widths[k] + Total([widths[k]][1..]);
  }

  lemma {:induction false} DecodeEncodeRecord(values: seq<nat>, widths: seq<nat>)
    requires Fit(values, widths)
    ensures DecodeRecord(EncodeRecord(values, widths), widths) == values
  {
    if widths != [] {
      var bytes, w := EncodeRecord(values, widths), widths[0];
      DecodeEncode(values[0], w);
      DecodeEncodeRecord(values[1..], widths[1..]);
      assert bytes[..w] == Encode(values[0], w);
      assert bytes[w..] == EncodeRecord(values[1..], widths[1..]);
      assert values == [values[0]] + values[1..];
    }
  }

  lemma {:induction false} EncodeDecodeRecord(bytes: seq<Byte>, widths: seq<nat>)
    requires |bytes| == Total(widths)
    ensures EncodeRecord(DecodeRecord(bytes, widths), widths) == bytes
    ensures Fit(DecodeRecord(bytes, widths), widths)
    decreases widths
  {
    if widths != [] {
      var values, w := DecodeRecord(bytes, widths), widths[0];
      EncodeDecode(bytes[..w]);
      EncodeDecodeRecord(bytes[w..], widths[1..]);
      assert values[1..] == DecodeRecord(bytes[w..], widths[1..]);
      assert bytes == bytes[..w] + bytes[w..];
    }
  }

  // ---------- the header ----------

  const GPT_SIGNATURE: nat := 0x5452415020494645
  const SUPPORTED_REVISION: nat := 0x00010000
  const HEADER_SIZE: nat := 92
  const HEADER_RECORD: nat := 512
  const ENTRY_SIZE: nat := 128
  const NUM_GPT_ENTRIES: nat := 128
  const TWO32: nat := 0x1_0000_0000
  const TWO64: nat := 0x1_0000_0000_0000_0000

  /** The signature spells "EFI PART". */
  lemma Signature()
    ensures Encode(GPT_SIGNATURE, 8) == [69, 70, 73, 32, 80, 65, 82, 84]
  {
    assert Encode(0x54524150, 4) == [80, 65, 82, 84];
    assert Encode(0x5452415020, 5) == [32] + Encode(0x54524150, 4);
    assert Encode(0x545241502049, 6) == [73] + Encode(0x5452415020, 5);
    assert Encode(0x54524150204946, 7) == [70] + Encode(0x545241502049, 6);
  }

  datatype Header = Header(
    signature: nat, revision: nat, headerSize: nat, headerCRC: nat, reserved: nat,
    currentLBA: nat, backupLBA: nat, firstUsableLBA: nat, lastUsableLBA: nat,
    diskGUID: nat, partitionEntriesLBA: nat, numParts: nat,
    sizeOfPartitionEntries: nat, partitionEntriesCRC: nat, reserved2: nat)

  const HEADER_WIDTHS: seq<nat> := [8, 4, 4, 4, 4, 8, 8, 8, 8, 16, 8, 4, 4, 4, 420]

  function HeaderValues(h: Header): (values: seq<nat>)
    ensures |values| == |HEADER_WIDTHS|
  {
    [h.signature, h.revision, h.headerSize, h.headerCRC, h.reserved,
     h.currentLBA, h.backupLBA, h.firstUsableLBA, h.lastUsableLBA,
     h.diskGUID, h.partitionEntriesLBA, h.numParts,
     h.sizeOfPartitionEntries, h.partitionEntriesCRC, h.reserved2]
  }

  function HeaderOf(v: seq<nat>): (h: Header)
    requires |v| == |HEADER_WIDTHS|
  {
    Header(v[0], v[1], v[2], v[3], v[4], v[5], v[6], v[7], v[8], v[9], v[10], v[11], v[12], v[13], v[14])
  }

  predicate HeaderFits(h: Header) { Fit(HeaderValues(h), HEADER_WIDTHS) }

  lemma {:induction false} TotalConcat(a: seq<nat>, b: seq<nat>)
    ensures Total(a + b) == Total(a) + Total(b)
  {
    if a == [] {
      assert a + b == b;
    } else {
      assert (a + b)[1..] == a[1..] + b;
      TotalConcat(a[1..], b);
    }
  }

  lemma TotalOfFive(a: seq<nat>)
    requires |a| == 5
    ensures Total(a) == a[0] + a[1] + a[2] + a[3] + a[4]
  {
    var b := a[1..];
    var c := b[1..];
    var d := c[1..];
    assert Total(d) == d[0] + Total(d[1..]) && Total(d[1..]) == d[1] + Total(d[1..][1..]);
    assert Total(b) == b[0] + c[0] + Total(d);
  }

  lemma HeaderRecordSize()
    ensures Total(HEADER_WIDTHS) == HEADER_RECORD
  {
    hide Total;
    var a: seq<nat>, b: seq<nat>, c: seq<nat> := [8, 4, 4, 4, 4], [8, 8, 8, 8, 16], [8, 4, 4, 4, 420];
    assert HEADER_WIDTHS == a + b + c;
    TotalConcat(a + b, c);
    TotalConcat(a, b);
    TotalOfFive(a);
    TotalOfFive(b);
    TotalOfFive(c);
  }

  lemma {:induction false} EncodeConcat(a: seq<nat>, b: seq<nat>, u: seq<nat>, v: seq<nat>)
    requires |a| == |u| && |b| == |v|
    ensures EncodeRecord(a + b, u + v) == EncodeRecord(a, u) + EncodeRecord(b, v)
  {
    if a == [] {
      assert a + b == b && u + v == v;
    } else {
      assert (a + b)[1..] == a[1..] + b && (u + v)[1..] == u[1..] + v;
      EncodeConcat(a[1..], b, u[1..], v);
    }
  }

  /** The checksum of the table is bytes 88 to 91 of a header, and nothing before it depends on it. */
  lemma TableChecksumField(h: Header) returns (front: seq<Byte>, rest: seq<Byte>)
    ensures |front| == 88
    ensures forall crc: nat :: HeaderBytes(h.(partitionEntriesCRC := crc)) == front + Encode(crc, 4) + rest
  {
    hide EncodeRecord, Encode, Total;
    var u: seq<nat>, v: seq<nat> := HEADER_WIDTHS[..13], [4, 420];
    var a := HeaderValues(h)[..13];
    front, rest := EncodeRecord(a, u), Encode(h.reserved2, 420);
    FrontSize();
    forall crc: nat
      ensures HeaderBytes(h.(partitionEntriesCRC := crc)) == front + Encode(crc, 4) + rest
    {
      var b: seq<nat> := [crc, h.reserved2];
      assert HeaderValues(h.(partitionEntriesCRC := crc)) == a + b && HEADER_WIDTHS == u + v;
      EncodeConcat(a, b, u, v);
      TwoFields(crc, 4, h.reserved2, 420);
    }
  }

  lemma TwoFields(x: nat, m: nat, y: nat, n: nat)
    ensures EncodeRecord([x, y], [m, n]) == Encode(x, m) + Encode(y, n)
  {
    assert [x, y][1..] == [y] && [m, n][1..] == [n];
    assert EncodeRecord([y], [n]) == Encode(y, n) + EncodeRecord([], []) by { assert [y][1..] == [] && [n][1..] == []; }
  }

  lemma FrontSize()
    ensures Total(HEADER_WIDTHS[..13]) == 88
  {
    hide Total;
    HeaderRecordSize();
    var v: seq<nat> := [4, 420];
    assert HEADER_WIDTHS == HEADER_WIDTHS[..13] + v;
    TotalConcat(HEADER_WIDTHS[..13], v);
    TotalOfTwo(4, 420);
  }

  lemma TotalOfTwo(m: nat, n: nat)
    ensures Total([m, n]) == m + n
  {
    var a: seq<nat>, b: seq<nat> := [m, n], [n];
    assert a[1..] == b && b[1..] == [];
    assert Total(a) == m + Total(b);
    assert Total(b) == n + Total([]);
  }

  function HeaderBytes(h: Header): (bytes: seq<Byte>)
    ensures |bytes| == HEADER_RECORD
  {
    HeaderRecordSize();
    EncodeRecord(HeaderValues(h), HEADER_WIDTHS)
  }

  function ParseHeader(bytes: seq<Byte>): (h: Header)
    requires |bytes| == HEADER_RECORD
  {
    HeaderRecordSize();
    HeaderOf(DecodeRecord(bytes, HEADER_WIDTHS))
  }

  /** Reading back a header that was written yields the same header. */
  lemma ParseHeaderBytes(h: Header)
    requires HeaderFits(h)
    ensures ParseHeader(HeaderBytes(h)) == h
  {
    HeaderRecordSize();
    DecodeEncodeRecord(HeaderValues(h), HEADER_WIDTHS);
  }

  lemma HeaderBytesParse(bytes: seq<Byte>)
    requires |bytes| == HEADER_RECORD
    ensures HeaderBytes(ParseHeader(bytes)) == bytes && HeaderFits(ParseHeader(bytes))
  {
    hide EncodeRecord, DecodeRecord, Total;
    HeaderRecordSize();
    EncodeDecodeRecord(bytes, HEADER_WIDTHS);
    var v := DecodeRecord(bytes, HEADER_WIDTHS);
    assert HeaderValues(HeaderOf(v)) == v;
  }

  /** Where the fields of a header are on the disk. */
  predicate HeaderPlaces(b: seq<Byte>, h: Header) {
    && Holds(b, 0, 8, h.signature) && Holds(b, 8, 4, h.revision) && Holds(b, 12, 4, h.headerSize)
    && Holds(b, 16, 4, h.headerCRC) && Holds(b, 20, 4, h.reserved) && Holds(b, 24, 8, h.currentLBA)
    && Holds(b, 32, 8, h.backupLBA) && Holds(b, 40, 8, h.firstUsableLBA) && Holds(b, 48, 8, h.lastUsableLBA)
    && Holds(b, 56, 16, h.diskGUID) && Holds(b, 72, 8, h.partitionEntriesLBA) && Holds(b, 80, 4, h.numParts)
    && Holds(b, 84, 4, h.sizeOfPartitionEntries) && Holds(b, 88, 4, h.partitionEntriesCRC)
    && Holds(b, 92, 420, h.reserved2)
  }

  /** Every field of a header has its fixed place, in what is written and in what is read. */
  lemma HeaderLayout(h: Header)
    ensures HeaderPlaces(HeaderBytes(h), h)
  {
    hide HeaderBytes, Holds;
    var b, v := HeaderBytes(h), HeaderValues(h);
    forall k | 0 <= k < |HEADER_WIDTHS|
      ensures Holds(b, HEADER_OFFSETS[k], HEADER_WIDTHS[k], v[k])
    {
      HeaderField(h, k);
    }
    assert v[0] == h.signature && v[1] == h.revision && v[2] == h.headerSize && v[3] == h.headerCRC;
    assert v[4] == h.reserved && v[5] == h.currentLBA && v[6] == h.backupLBA && v[7] == h.firstUsableLBA;
    assert v[8] == h.lastUsableLBA && v[9] == h.diskGUID && v[10] == h.partitionEntriesLBA && v[11] == h.numParts;
    assert v[12] == h.sizeOfPartitionEntries && v[13] == h.partitionEntriesCRC && v[14] == h.reserved2;
  }

  const HEADER_OFFSETS: seq<nat> := [0, 8, 12, 16, 20, 24, 32, 40, 48, 56, 72, 80, 84, 88, 92]

  lemma HeaderField(h: Header, k: nat)
    requires k < |HEADER_WIDTHS|
    ensures Holds(HeaderBytes(h), HEADER_OFFSETS[k], HEADER_WIDTHS[k], HeaderValues(h)[k])
  {
    hide EncodeRecord, Total, Holds;
    OffsetOf(HEADER_WIDTHS, HEADER_OFFSETS, k);
    FieldAt(HeaderValues(h), HEADER_WIDTHS, k);
  }

  lemma {:induction false} OffsetOf(widths: seq<nat>, offsets: seq<nat>, k: nat)
    requires k < |widths| == |offsets| && offsets[0] == 0
    requires forall i :: 0 <= i < |widths| - 1 ==> offsets[i + 1] == offsets[i] + widths[i]
    ensures Total(widths[..k]) == offsets[k]
  {
    if k > 0 {
      OffsetOf(widths, offsets, k - 1);
      TotalNext(widths, k - 1);
      assert offsets[k - 1 + 1] == offsets[k - 1] + widths[k - 1];
    }
  }

  /** A header is read from the places it is written to. */
  lemma HeaderReadFrom(bytes: seq<Byte>)
    requires |bytes| == HEADER_RECORD
    ensures HeaderPlaces(bytes, ParseHeader(bytes))
  {
    hide HeaderPlaces;
    HeaderBytesParse(bytes);
    HeaderLayout(ParseHeader(bytes));
  }

  // ---------- the partition entry ----------

  /** One partition table entry; a zero type marks an unused entry. */
  datatype Part = Part(partitionType: nat, uniqueGUID: nat, firstLBA: nat, lastLBA: nat, attributes: nat, name: nat) {
    predicate IsUsed() { partitionType != 0 }
  }

  const BLANK: Part := Part(0, 0, 0, 0, 0, 0)

  const PART_WIDTHS: seq<nat> := [16, 16, 8, 8, 8, 72]

  function PartValues(p: Part): (values: seq<nat>)
    ensures |values| == |PART_WIDTHS|
  {
    [p.partitionType, p.uniqueGUID, p.firstLBA, p.lastLBA, p.attributes, p.name]
  }

  function PartOf(v: seq<nat>): (p: Part)
    requires |v| == |PART_WIDTHS|
  {
    Part(v[0], v[1], v[2], v[3], v[4], v[5])
  }

  predicate PartFits(p: Part) { Fit(PartValues(p), PART_WIDTHS) }

  predicate TableFits(parts: seq<Part>) { forall i :: 0 <= i < |parts| ==> PartFits(parts[i]) }

  lemma EntryRecordSize()
    ensures Total(PART_WIDTHS) == ENTRY_SIZE
  {}

  function PartBytes(p: Part): (bytes: seq<Byte>)
    ensures |bytes| == ENTRY_SIZE
  {
    EntryRecordSize();
    EncodeRecord(PartValues(p), PART_WIDTHS)
  }

  function ParsePart(bytes: seq<Byte>): (p: Part)
    requires |bytes| == ENTRY_SIZE
  {
    EntryRecordSize();
    PartOf(DecodeRecord(bytes, PART_WIDTHS))
  }

  lemma ParsePartBytes(p: Part)
    requires PartFits(p)
    ensures ParsePart(PartBytes(p)) == p
  {
    DecodeEncodeRecord(PartValues(p), PART_WIDTHS);
  }

  lemma PartBytesParse(bytes: seq<Byte>)
    requires |bytes| == ENTRY_SIZE
    ensures PartBytes(ParsePart(bytes)) == bytes && PartFits(ParsePart(bytes))
  {
    EntryRecordSize();
    EncodeDecodeRecord(bytes, PART_WIDTHS);
    var v := DecodeRecord(bytes, PART_WIDTHS);
    assert PartValues(PartOf(v)) == v;
  }

  /** Where the fields of a partition entry are, from a given byte on. */
  predicate PartPlaces(b: seq<Byte>, at: nat, p: Part) {
    && Holds(b, at, 16, p.partitionType) && Holds(b, at + 16, 16, p.uniqueGUID) && Holds(b, at + 32, 8, p.firstLBA)
    && Holds(b, at + 40, 8, p.lastLBA) && Holds(b, at + 48, 8, p.attributes) && Holds(b, at + 56, 72, p.name)
  }

  const PART_OFFSETS: seq<nat> := [0, 16, 32, 40, 48, 56]

  lemma PartLayout(p: Part)
    ensures PartPlaces(PartBytes(p), 0, p)
  {
    hide PartBytes, Holds;
    var b, v := PartBytes(p), PartValues(p);
    forall k | 0 <= k < |PART_WIDTHS|
      ensures Holds(b, PART_OFFSETS[k], PART_WIDTHS[k], v[k])
    {
      PartField(p, k);
    }
    assert v[0] == p.partitionType && v[1] == p.uniqueGUID && v[2] == p.firstLBA;
    assert v[3] == p.lastLBA && v[4] == p.attributes && v[5] == p.name;
  }

  lemma PartField(p: Part, k: nat)
    requires k < |PART_WIDTHS|
    ensures Holds(PartBytes(p), PART_OFFSETS[k], PART_WIDTHS[k], PartValues(p)[k])
  {
    hide EncodeRecord, Total, Holds;
    OffsetOf(PART_WIDTHS, PART_OFFSETS, k);
    FieldAt(PartValues(p), PART_WIDTHS, k);
  }

  // ---------- the partition table ----------

  function TableBytes(parts: seq<Part>): (bytes: seq<Byte>)
    ensures |bytes| == ENTRY_SIZE * |parts|
  {
    if parts == [] then [] else PartBytes(parts[0]) + TableBytes(parts[1..])
  }

  /** The whole entries a byte string holds. */
  function ParseTable(bytes: seq<Byte>): (parts: seq<Part>) {
    if |bytes| < ENTRY_SIZE then [] else [ParsePart(bytes[..ENTRY_SIZE])] + ParseTable(bytes[ENTRY_SIZE..])
  }

  lemma {:induction false} ParseTableBytes(parts: seq<Part>)
    requires TableFits(parts)
    ensures ParseTable(TableBytes(parts)) == parts
  {
    hide PartBytes, ParsePart, PartFits;
    if parts != [] {
      var bytes := TableBytes(parts);
      ParsePartBytes(parts[0]);
      ParseTableBytes(parts[1..]);
      assert bytes[..ENTRY_SIZE] == PartBytes(parts[0]) && bytes[ENTRY_SIZE..] == TableBytes(parts[1..]);
      assert parts == [parts[0]] + parts[1..];
    }
  }

  lemma {:induction false} TableBytesParse(bytes: seq<Byte>, n: nat)
    requires |bytes| == ENTRY_SIZE * n
    ensures TableBytes(ParseTable(bytes)) == bytes && |ParseTable(bytes)| == n && TableFits(ParseTable(bytes))
    decreases n
  {
    hide PartBytes, ParsePart, PartFits;
    if n > 0 {
      PartBytesParse(bytes[..ENTRY_SIZE]);
      TableBytesParse(bytes[ENTRY_SIZE..], n - 1);
      assert ParseTable(bytes)[1..] == ParseTable(bytes[ENTRY_SIZE..]);
      assert bytes == bytes[..ENTRY_SIZE] + bytes[ENTRY_SIZE..];
    }
  }

  /** Different byte images of the same size are different tables. */
  lemma ParseTableInjective(a: seq<Byte>, b: seq<Byte>, n: nat)
    requires |a| == |b| == ENTRY_SIZE * n && ParseTable(a) == ParseTable(b)
    ensures a == b
  {
    TableBytesParse(a, n);
    TableBytesParse(b, n);
  }

  /** Every field of every entry has its fixed place in the table. */
  lemma {:induction false} TableLayout(parts: seq<Part>, i: nat)
    requires i < |parts|
    ensures PartPlaces(TableBytes(parts), ENTRY_SIZE * i, parts[i])
    decreases i
  {
    hide PartBytes, PartPlaces;
    var bytes := TableBytes(parts);
    if i == 0 {
      PartLayout(parts[0]);
      PlacesShifted(PartBytes(parts[0]), 0, parts[0], [], TableBytes(parts[1..]));
      assert bytes == [] + PartBytes(parts[0]) + TableBytes(parts[1..]);
    } else {
      TableLayout(parts[1..], i - 1);
      PlacesShifted(TableBytes(parts[1..]), ENTRY_SIZE * (i - 1), parts[i], PartBytes(parts[0]), []);
      assert bytes == PartBytes(parts[0]) + TableBytes(parts[1..]) + [];
    }
  }

  lemma PlacesShifted(b: seq<Byte>, at: nat, p: Part, before: seq<Byte>, after: seq<Byte>)
    requires PartPlaces(b, at, p)
    ensures PartPlaces(before + b + after, |before| + at, p)
  {
    hide Power256;
    forall i | 0 <= i < |b|
      ensures (before + b + after)[|before| + i] == b[i]
    {}
  }

  /** A table is read from the places it is written to. */
  lemma TableReadFrom(bytes: seq<Byte>, n: nat, i: nat)
    requires |bytes| == ENTRY_SIZE * n && i < n
    ensures |ParseTable(bytes)| == n && PartPlaces(bytes, ENTRY_SIZE * i, ParseTable(bytes)[i])
  {
    hide PartPlaces;
    TableBytesParse(bytes, n);
    TableLayout(ParseTable(bytes), i);
  }
}

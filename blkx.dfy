/**
 * BLKX ("mish") block tables: each partition's table is stored base64-encoded
 * in the Data string of the plist's blkx dictionary with that ID. The plist
 * query is not modelled; its answers are a map from ID to Data string.
 */
module Blkx {
  import opened Wrappers
  import opened Ints
  import Udif
  import Base64
  import Base64Properties

  /** The Data string of the blkx dictionary with each ID; an ID with none reads as "". */
  type Metadata = map<int, string>

  function DataString(meta: Metadata, id: int): string
  {
    if id in meta then meta[id] else ""
  }

  /**
   * loadBLKXTableForPartition: no table (a null pointer) when the Data
   * string is empty, else the bytes it decodes to.
   */
  function LoadTable(meta: Metadata, id: int): (r: Option<seq<uint8>>)
    ensures r.None? <==> DataString(meta, id) == []
  {
    var data := DataString(meta, id);
    if data == [] then None else Some(Base64.Decode(data))
  }

  /** The same, decoding with the base64 routine into an empty vector. */
  method LoadBlkxTable(meta: Metadata, id: int) returns (table: Option<seq<uint8>>)
    ensures table == LoadTable(meta, id)
  {
    var data := DataString(meta, id);
    if data != [] {
      var _, bytes := Base64.Base64Decode(data, []);
      assert bytes == Base64.Decode(data);
      table := Some(bytes);
    } else {
      table := None;
    }
  }

  /**
   * A table stored as its standard encoding followed by one more character
   * (the newline or tab that ends a plist data element) loads back intact.
   */
  lemma LoadEncodedTable(meta: Metadata, id: int, table: seq<uint8>, c: char)
    ensures LoadTable(meta[id := Base64Properties.Encode(table) + [c]], id) == Some(table)
  {
    Base64Properties.RoundTrip(table, c);
  }

  /**
   * A Data string as a plist writes it, the encoding broken into indented
   * lines, loads back intact.
   */
  lemma LoadFormattedTable(meta: Metadata, id: int, table: seq<uint8>)
    requires id in meta && meta[id] != [] && !Base64.IsBase64(meta[id][|meta[id]| - 1])
    requires Base64Properties.Filter(meta[id]) == Base64Properties.EncodeBody(table)
    requires forall k, j :: 0 <= k <= j < |meta[id]| && meta[id][k] == '=' ==> !Base64.IsBase64(meta[id][j])
    ensures LoadTable(meta, id) == Some(table)
  {
    Base64Properties.FormattedRoundTrip(meta[id], table);
  }

  /** Byte offsets of the two BLKXTable fields the reader uses, and where they end. */
  const FirstSectorField: nat := 8
  const SectorCountField: nat := 16
  const HeaderFieldsEnd: nat := 24

  /** firstSectorNumber and sectorCount, as be() reads them. */
  datatype BlkxHeader = BlkxHeader(firstSectorNumber: nat, sectorCount: nat)

  function HeaderOf(table: seq<uint8>): (r: BlkxHeader)
    requires |table| >= HeaderFieldsEnd
    ensures r.firstSectorNumber < TwoTo64 && r.sectorCount < TwoTo64
  {
    Udif.TwoTo64IsPow256();
    BlkxHeader(Udif.Field(table, FirstSectorField, 8), Udif.Field(table, SectorCountField, 8))
  }

  /** The leading bytes of a table with the given header, after any 8 bytes (the signature and version). */
  function HeaderBytes(lead: seq<uint8>, h: BlkxHeader): (r: seq<uint8>)
    requires |lead| == FirstSectorField
    ensures |r| == HeaderFieldsEnd
  {
    lead + Udif.ToBigEndian(h.firstSectorNumber, 8) + Udif.ToBigEndian(h.sectorCount, 8)
  }

  /** A table laid out with a header reads that header back, whatever precedes and follows it. */
  lemma HeaderRoundTrip(lead: seq<uint8>, h: BlkxHeader, rest: seq<uint8>)
    requires |lead| == FirstSectorField
    requires h.firstSectorNumber < TwoTo64 && h.sectorCount < TwoTo64
    ensures HeaderOf(HeaderBytes(lead, h) + rest) == h
  {
    Udif.TwoTo64IsPow256();
    var t := HeaderBytes(lead, h) + rest;
    assert t[8..16] == Udif.ToBigEndian(h.firstSectorNumber, 8);
    assert t[16..24] == Udif.ToBigEndian(h.sectorCount, 8);
    Udif.BigEndianOfToBigEndian(h.firstSectorNumber, 8);
    Udif.BigEndianOfToBigEndian(h.sectorCount, 8);
  }

  /**
   * Every non-empty Data string decodes to enough bytes to hold the header;
   * reading the fields of a shorter buffer is undefined in the source.
   */
  predicate Readable(meta: Metadata)
  {
    forall id | id in meta :: meta[id] == [] || |Base64.Decode(meta[id])| >= HeaderFieldsEnd
  }

  /** Under Readable, every table that loads holds the header fields. */
  lemma LoadedTableHoldsHeader(meta: Metadata, id: int)
    requires Readable(meta) && LoadTable(meta, id).Some?
    ensures |LoadTable(meta, id).value| >= HeaderFieldsEnd
  {
    assert id in meta && meta[id] != [];
  }

  /** The header of the table with this ID, if there is one. */
  function HeaderFor(meta: Metadata, id: int): (r: Option<BlkxHeader>)
    requires Readable(meta)
    ensures r.Some? <==> LoadTable(meta, id).Some?
    ensures r.Some? ==> r.value == HeaderOf(LoadTable(meta, id).value)
  {
    match LoadTable(meta, id)
    case None => None
    case Some(table) =>
      LoadedTableHoldsHeader(meta, id);
      Some(HeaderOf(table))
  }

  /** A sector is 512 bytes. */
  const SectorSize: nat := 512

  /** `be(x) * 512` in uint64: a byte count, wrapped modulo 2^64. */
  function SectorsToBytes(sectors: nat): (r: nat)
    ensures r < TwoTo64
  {
    (sectors * SectorSize) % TwoTo64
  }

  /** The product stays sector-aligned even when it wraps, and is exact when it does not. */
  lemma SectorsToBytesAligned(sectors: nat)
    ensures SectorsToBytes(sectors) % SectorSize == 0
    ensures sectors * SectorSize < TwoTo64 ==> SectorsToBytes(sectors) == sectors * SectorSize
  {
    var m := sectors * SectorSize;
    var q := m / TwoTo64;
    var pages: nat := 0x80_0000_0000_0000;
    assert TwoTo64 == pages * SectorSize;
    assert m == q * TwoTo64 + SectorsToBytes(sectors);
    assert SectorsToBytes(sectors) == (sectors - q * pages) * SectorSize;
  }
}

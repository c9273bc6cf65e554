/**
 * DMGDisk: opens a UDIF disk image and lists its partitions, first from the
 * plist metadata (one blkx dictionary per partition, with a CFName or Name
 * string and a base64 BLKX table) and, when that does not work out, from the
 * partition map found inside the image's blocks.
 *
 * libxml2 and the partition scheme parsers are not modelled: the answers of
 * the XPath queries come in as a `Plist`, those of AppleDisk and GPTDisk as
 * the functions of a `Schemes`.
 */
module Dmg {
  import opened Wrappers
  import opened Ints
  import opened DmgErrors
  import Text
  import NameType
  import Blkx
  import Udif

  /** A partition; offset and size stay unset (None) when it has no BLKX table. */
  datatype Partition = Partition(name: string, partType: string, offset: Option<nat>, size: Option<nat>)

  /**
   * One node the metadata query selected: whether it is an element, and the
   * strings after its CFName and Name keys, when the query yields one.
   */
  datatype Entry = Entry(isElement: bool, cfName: Option<string>, name: Option<string>)

  /** What the plist XML gives: the partition dictionaries, if the query worked, and the Data strings by ID. */
  datatype Plist = Plist(entries: Option<seq<Entry>>, data: Blkx.Metadata)

  /** Where the partition list came from. */
  datatype Source = FromMetadata | ApplePartitionMap | GuidPartitionTable

  /**
   * The scheme parsers, given the table of a block (None for a null reader):
   * whether block -1 holds an Apple map or a GPT, and the partitions a scheme
   * finds from block -1 and its inner block.
   */
  datatype Schemes = Schemes(
    isAppleDisk: Option<seq<uint8>> -> bool,
    isGptDisk: Option<seq<uint8>> -> bool,
    partitionsOf: (Source, Option<seq<uint8>>, Option<seq<uint8>>) -> seq<Partition>)

  /** How a loading step ended, and the partition list it left. */
  datatype Outcome<R> = Outcome(result: Result<R, DmgError>, partitions: seq<Partition>)

  /** The CFName string, or failing that the Name string. */
  function Label(e: Entry): Option<string>
  {
    if e.cfName.Some? then e.cfName else e.name
  }

  predicate LabelFits(e: Entry)
  {
    Label(e).Some? ==> |Label(e).value| < TwoTo64
  }

  predicate EntriesFit(entries: seq<Entry>)
  {
    forall k | 0 <= k < |entries| :: LabelFits(entries[k])
  }

  /** Sizes and offsets computed from a table are whole sectors. */
  predicate SectorAligned(p: Partition)
  {
    (p.offset.Some? ==> p.offset.value % Blkx.SectorSize == 0)
    && (p.size.Some? ==> p.size.value % Blkx.SectorSize == 0)
  }

  /**
   * The partition built for the entry at position `id` of the node list: its
   * name and type parsed from its CFName or Name string into empty strings, and offset and
   * size from the table looked up by that position.
   */
  function PartitionFor(meta: Blkx.Metadata, id: int, nameAndType: string): (p: Partition)
    requires Blkx.Readable(meta) && |nameAndType| < TwoTo64
    ensures p.offset.None? <==> Blkx.LoadTable(meta, id).None?
    ensures p.size.None? <==> Blkx.LoadTable(meta, id).None?
    ensures p.offset.Some? ==> p.offset.value == Blkx.SectorsToBytes(Blkx.HeaderFor(meta, id).value.firstSectorNumber)
    ensures p.size.Some? ==> p.size.value == Blkx.SectorsToBytes(Blkx.HeaderFor(meta, id).value.sectorCount)
    ensures SectorAligned(p)
    ensures p.name == NameType.ParseNameAndType(nameAndType, "", "").name
    ensures p.partType == NameType.ParseNameAndType(nameAndType, "", "").partType
  {
    var nt := NameType.ParseNameAndType(nameAndType, "", "");
    match Blkx.HeaderFor(meta, id)
    case None => Partition(nt.name, nt.partType, None, None)
    case Some(h) =>
      Blkx.SectorsToBytesAligned(h.firstSectorNumber);
      Blkx.SectorsToBytesAligned(h.sectorCount);
      Partition(nt.name, nt.partType,
        Some(Blkx.SectorsToBytes(h.firstSectorNumber)), Some(Blkx.SectorsToBytes(h.sectorCount)))
  }

  /** loadPartitionElements from position i on, with `parts` the list so far. */
  function ElementsFrom(meta: Blkx.Metadata, entries: seq<Entry>, i: nat, parts: seq<Partition>): Outcome<bool>
    requires Blkx.Readable(meta) && EntriesFit(entries) && i <= |entries|
    decreases |entries| - i
  {
    if i == |entries| then Outcome(Success(true), parts)
    else if !entries[i].isElement then ElementsFrom(meta, entries, i + 1, parts)
    else match Label(entries[i])
      case None => Outcome(Failure(NameKeyNotFound), parts)
      case Some(nameAndType) =>
        assert LabelFits(entries[i]);
        if !NameType.ParseNameAndType(nameAndType, "", "").ok && parts == [] then Outcome(Success(false), parts)
        else ElementsFrom(meta, entries, i + 1, parts + [PartitionFor(meta, i, nameAndType)])
  }

  /** The partitions of the element entries from position i on, each built whatever its parse gives. */
  function Appended(meta: Blkx.Metadata, entries: seq<Entry>, i: nat): seq<Partition>
    requires Blkx.Readable(meta) && EntriesFit(entries) && i <= |entries|
    requires forall k | i <= k < |entries| :: entries[k].isElement ==> Label(entries[k]).Some?
    decreases |entries| - i
  {
    if i == |entries| then []
    else if !entries[i].isElement then Appended(meta, entries, i + 1)
    else
      assert LabelFits(entries[i]);
      [PartitionFor(meta, i, Label(entries[i]).value)] + Appended(meta, entries, i + 1)
  }

  /** The loader only ever appends: the list it started from is a prefix of the one it leaves. */
  lemma {:induction false} ElementsExtend(meta: Blkx.Metadata, entries: seq<Entry>, i: nat, parts: seq<Partition>)
    requires Blkx.Readable(meta) && EntriesFit(entries) && i <= |entries|
    ensures parts <= ElementsFrom(meta, entries, i, parts).partitions
    decreases |entries| - i
  {
    if i < |entries| && entries[i].isElement && Label(entries[i]).Some? {
      var nameAndType := Label(entries[i]).value;
      assert LabelFits(entries[i]);
      if NameType.ParseNameAndType(nameAndType, "", "").ok || parts != [] {
        ElementsExtend(meta, entries, i + 1, parts + [PartitionFor(meta, i, nameAndType)]);
      }
    } else if i < |entries| && !entries[i].isElement {
      ElementsExtend(meta, entries, i + 1, parts);
    }
  }

  /** It reports false only when a name fails to parse while the list is still empty, and then leaves it empty. */
  lemma {:induction false} FalseOnlyWhenEmpty(meta: Blkx.Metadata, entries: seq<Entry>, i: nat, parts: seq<Partition>)
    requires Blkx.Readable(meta) && EntriesFit(entries) && i <= |entries|
    requires ElementsFrom(meta, entries, i, parts).result == Success(false)
    ensures parts == [] && ElementsFrom(meta, entries, i, parts).partitions == []
    decreases |entries| - i
  {
    if i < |entries| && entries[i].isElement && Label(entries[i]).Some? {
      var nameAndType := Label(entries[i]).value;
      assert LabelFits(entries[i]);
      if NameType.ParseNameAndType(nameAndType, "", "").ok || parts != [] {
        FalseOnlyWhenEmpty(meta, entries, i + 1, parts + [PartitionFor(meta, i, nameAndType)]);
      }
    } else if i < |entries| && !entries[i].isElement {
      FalseOnlyWhenEmpty(meta, entries, i + 1, parts);
    }
  }

  /** Every partition it appends that has a table has a sector-aligned offset and size. */
  lemma {:induction false} ElementsAligned(meta: Blkx.Metadata, entries: seq<Entry>, i: nat, parts: seq<Partition>)
    requires Blkx.Readable(meta) && EntriesFit(entries) && i <= |entries|
    requires forall k | 0 <= k < |parts| :: SectorAligned(parts[k])
    ensures forall k | 0 <= k < |ElementsFrom(meta, entries, i, parts).partitions| ::
      SectorAligned(ElementsFrom(meta, entries, i, parts).partitions[k])
    decreases |entries| - i
  {
    if i < |entries| && entries[i].isElement && Label(entries[i]).Some? {
      var nameAndType := Label(entries[i]).value;
      assert LabelFits(entries[i]);
      if NameType.ParseNameAndType(nameAndType, "", "").ok || parts != [] {
        ElementsAligned(meta, entries, i + 1, parts + [PartitionFor(meta, i, nameAndType)]);
      }
    } else if i < |entries| && !entries[i].isElement {
      ElementsAligned(meta, entries, i + 1, parts);
    }
  }

  /**
   * Once the list is non-empty, every element entry with a nameAndType is appended,
   * those whose name does not parse included, and the load succeeds; an empty
   * entry list leaves the list as it was.
   */
  lemma {:induction false} EveryElementAppended(meta: Blkx.Metadata, entries: seq<Entry>, i: nat, parts: seq<Partition>)
    requires Blkx.Readable(meta) && EntriesFit(entries) && i <= |entries|
    requires forall k | i <= k < |entries| :: entries[k].isElement ==> Label(entries[k]).Some?
    requires parts != []
    ensures ElementsFrom(meta, entries, i, parts) == Outcome(Success(true), parts + Appended(meta, entries, i))
    decreases |entries| - i
  {
    if i < |entries| {
      if entries[i].isElement {
        var nameAndType := Label(entries[i]).value;
        assert LabelFits(entries[i]);
        var p := PartitionFor(meta, i, nameAndType);
        EveryElementAppended(meta, entries, i + 1, parts + [p]);
        assert parts + [p] + Appended(meta, entries, i + 1) == parts + ([p] + Appended(meta, entries, i + 1));
      } else {
        EveryElementAppended(meta, entries, i + 1, parts);
      }
    }
  }

  /**
   * From the empty list a new disk starts with: when the first element entry
   * has a name that parses and every element entry has a name string, the
   * load succeeds with one partition per element entry, in order, the first
   * built from that entry's table.
   */
  lemma {:induction false} ElementsFromEmpty(meta: Blkx.Metadata, entries: seq<Entry>, s: nat, i: nat)
    requires Blkx.Readable(meta) && EntriesFit(entries) && s <= i < |entries|
    requires forall k | s <= k < |entries| :: entries[k].isElement ==> Label(entries[k]).Some?
    requires forall j | s <= j < i :: !entries[j].isElement
    requires entries[i].isElement && NameParses(entries[i])
    ensures ElementsFrom(meta, entries, s, []) == Outcome(Success(true), Appended(meta, entries, s))
    ensures Appended(meta, entries, s) != []
      && Appended(meta, entries, s)[0] == PartitionFor(meta, i, Label(entries[i]).value)
    decreases i - s
  {
    if s < i {
      ElementsFromEmpty(meta, entries, s + 1, i);
      assert Appended(meta, entries, s) == Appended(meta, entries, s + 1);
    } else {
      FirstElementAppended(meta, entries, i);
    }
  }

  /** The step of ElementsFromEmpty at the first element entry itself. */
  lemma FirstElementAppended(meta: Blkx.Metadata, entries: seq<Entry>, i: nat)
    requires Blkx.Readable(meta) && EntriesFit(entries) && i < |entries|
    requires forall k | i <= k < |entries| :: entries[k].isElement ==> Label(entries[k]).Some?
    requires entries[i].isElement && NameParses(entries[i])
    ensures ElementsFrom(meta, entries, i, []) == Outcome(Success(true), Appended(meta, entries, i))
    ensures Appended(meta, entries, i) == [PartitionFor(meta, i, Label(entries[i]).value)] + Appended(meta, entries, i + 1)
  {
    var p := PartitionFor(meta, i, Label(entries[i]).value);
    EveryElementAppended(meta, entries, i + 1, [p]);
    assert [] + [p] == [p];
  }

  /** The entry has a name string, and it parses. */
  predicate NameParses(e: Entry)
  {
    LabelFits(e) && Label(e).Some? && NameType.ParseNameAndType(Label(e).value, "", "").ok
  }

  /**
   * An element entry whose name queries both yield no string makes the load
   * throw, once it is reached: the element entries before it have names, and
   * either the list is already non-empty or those names all parse (a failed
   * parse on the empty list returns false first).
   */
  lemma {:induction false} MissingNameFails(meta: Blkx.Metadata, entries: seq<Entry>, i: nat, parts: seq<Partition>, k: nat)
    requires Blkx.Readable(meta) && EntriesFit(entries) && i <= k < |entries|
    requires entries[k].isElement && Label(entries[k]).None?
    requires forall j | i <= j < k :: entries[j].isElement ==> Label(entries[j]).Some?
    requires parts != [] || forall j | i <= j < k :: entries[j].isElement ==> NameParses(entries[j])
    ensures ElementsFrom(meta, entries, i, parts).result == Failure(NameKeyNotFound)
    decreases |entries| - i
  {
    if i < k {
      if entries[i].isElement {
        var nameAndType := Label(entries[i]).value;
        assert LabelFits(entries[i]);
        MissingNameFails(meta, entries, i + 1, parts + [PartitionFor(meta, i, nameAndType)], k);
      } else {
        MissingNameFails(meta, entries, i + 1, parts, k);
      }
    }
  }

  /**
   * A dictionary without a CFName key gives the empty string, which does not
   * parse: as the first element entry it makes the load report false and
   * leave the list empty, so loadKoly goes on to the partition map of block -1.
   */
  lemma NamelessFirstEntryFallsBack(meta: Blkx.Metadata, rest: seq<Entry>, schemes: Schemes)
    requires Blkx.Readable(meta) && EntriesFit([Entry(true, Some(""), None)] + rest)
    ensures ElementsFrom(meta, [Entry(true, Some(""), None)] + rest, 0, []) == Outcome(Success(false), [])
    ensures var rm1 := Blkx.LoadTable(meta, -1);
      (KolyOutcome(meta, [], Some([Entry(true, Some(""), None)] + rest), schemes).result.Success?
       <==> schemes.isAppleDisk(rm1) || schemes.isGptDisk(rm1))
  {
    var entries := [Entry(true, Some(""), None)] + rest;
    assert entries[0] == Entry(true, Some(""), None);
    assert !NameType.ParseNameAndType("", "", "").ok;
  }

  /** A later dictionary without a CFName key is appended with an empty name and type. */
  lemma EmptyNamePartition(meta: Blkx.Metadata, id: int)
    requires Blkx.Readable(meta)
    ensures PartitionFor(meta, id, "").name == "" && PartitionFor(meta, id, "").partType == ""
  {
    NameType.NoParen("", "", "");
  }

  /** The fallback: block -1 is probed for an Apple map before a GPT. */
  function FallbackScheme(isApple: bool, isGpt: bool): (r: Result<Source, DmgError>)
    ensures r == Success(ApplePartitionMap) <==> isApple
    ensures r == Success(GuidPartitionTable) <==> !isApple && isGpt
    ensures r.Failure? <==> !isApple && !isGpt
    ensures r.Failure? ==> r.error == UnknownPartitionTable
  {
    if isApple then Success(ApplePartitionMap)
    else if isGpt then Success(GuidPartitionTable)
    else Failure(UnknownPartitionTable)
  }

  /** The block a scheme's second reader is built on; the first is always block -1. */
  function InnerBlock(s: Source): int
  {
    if s == ApplePartitionMap then 0 else 1
  }

  /** loadKoly from a list `parts`: the metadata path, then the fallback if that did not succeed. */
  function KolyOutcome(meta: Blkx.Metadata, parts: seq<Partition>, entries: Option<seq<Entry>>, schemes: Schemes): (r: Outcome<Source>)
    requires Blkx.Readable(meta) && (entries.Some? ==> EntriesFit(entries.value))
    ensures r.result == Success(FromMetadata)
        <==> entries.Some? && ElementsFrom(meta, entries.value, 0, parts).result == Success(true)
    ensures r.result == Success(FromMetadata) ==> r.partitions == ElementsFrom(meta, entries.value, 0, parts).partitions
    ensures entries.Some? && ElementsFrom(meta, entries.value, 0, parts).result.Failure? ==>
      r == Outcome(Failure(ElementsFrom(meta, entries.value, 0, parts).result.error), ElementsFrom(meta, entries.value, 0, parts).partitions)
    ensures r.result.Success? && r.result.value != FromMetadata ==>
      var rm1 := Blkx.LoadTable(meta, -1);
      r.partitions == schemes.partitionsOf(r.result.value, rm1, Blkx.LoadTable(meta, InnerBlock(r.result.value)))
  {
    var simple := if entries.Some? then ElementsFrom(meta, entries.value, 0, parts) else Outcome(Success(false), parts);
    if simple.result.Failure? then Outcome(Failure(simple.result.error), simple.partitions)
    else if simple.result.value then Outcome(Success(FromMetadata), simple.partitions)
    else
      var rm1 := Blkx.LoadTable(meta, -1);
      match FallbackScheme(schemes.isAppleDisk(rm1), schemes.isGptDisk(rm1))
      case Failure(e) => Outcome(Failure(e), simple.partitions)
      case Success(s) => Outcome(Success(s), schemes.partitionsOf(s, rm1, Blkx.LoadTable(meta, InnerBlock(s))))
  }

  /** Apple pairs block -1 with block 0, GPT pairs it with block 1, and nothing else is accepted. */
  lemma FallbackPairs(meta: Blkx.Metadata, entries: Option<seq<Entry>>, schemes: Schemes)
    requires Blkx.Readable(meta) && (entries.Some? ==> EntriesFit(entries.value))
    requires entries.None? || ElementsFrom(meta, entries.value, 0, []).result == Success(false)
    ensures var rm1 := Blkx.LoadTable(meta, -1);
      var r := KolyOutcome(meta, [], entries, schemes);
      && (schemes.isAppleDisk(rm1) ==>
            r == Outcome(Success(ApplePartitionMap), schemes.partitionsOf(ApplePartitionMap, rm1, Blkx.LoadTable(meta, 0))))
      && (!schemes.isAppleDisk(rm1) && schemes.isGptDisk(rm1) ==>
            r == Outcome(Success(GuidPartitionTable), schemes.partitionsOf(GuidPartitionTable, rm1, Blkx.LoadTable(meta, 1))))
      && (!schemes.isAppleDisk(rm1) && !schemes.isGptDisk(rm1) ==> r == Outcome(Failure(UnknownPartitionTable), []))
  {
    if entries.Some? {
      FalseOnlyWhenEmpty(meta, entries.value, 0, []);
    }
  }

  /** `Matches(meta, id, offset)`: table `id` exists and starts at the byte offset. */
  predicate Matches(meta: Blkx.Metadata, id: int, offset: Option<nat>)
    requires Blkx.Readable(meta)
  {
    var h := Blkx.HeaderFor(meta, id);
    h.Some? && offset == Some(Blkx.SectorsToBytes(h.value.firstSectorNumber))
  }

  /** A reader over one partition's table, cached under a key. */
  datatype PartitionReader = PartitionReader(table: seq<uint8>, cacheKey: string)

  /** The name under which a partition's reader is cached. */
  function CacheKey(index: nat): string
  {
    "part-" + Text.DecimalString(index)
  }

  /** Different partitions are cached under different keys. */
  lemma CacheKeysDiffer(a: nat, b: nat)
    requires a != b
    ensures CacheKey(a) != CacheKey(b)
  {
    Text.DecimalStringInjective("part-", a, b);
  }

  class DmgDisk {
    /** m_partitions. */
    var partitions: seq<Partition>
    /** The Data strings of the plist the image carries. */
    const meta: Blkx.Metadata

    constructor (meta: Blkx.Metadata)
      ensures this.meta == meta && partitions == []
    {
      this.meta := meta;
      partitions := [];
    }

    /**
     * loadPartitionElements: appends a partition per element entry; false when
     * a name does not parse while the list is empty, an error when an entry
     * has no name string.
     */
    method LoadPartitionElements(entries: seq<Entry>) returns (r: Result<bool, DmgError>)
      requires Blkx.Readable(meta) && EntriesFit(entries)
      modifies this
      ensures Outcome(r, partitions) == ElementsFrom(meta, entries, 0, old(partitions))
    {
      var i := 0;
      while i < |entries|
        invariant 0 <= i <= |entries|
        invariant ElementsFrom(meta, entries, i, partitions) == ElementsFrom(meta, entries, 0, old(partitions))
      {
        var e := entries[i];
        if !e.isElement {
          i := i + 1;
          continue;
        }
        var nameAndType := e.cfName;
        if nameAndType.None? {
          nameAndType := e.name;
        }
        if nameAndType.None? {
          return Failure(NameKeyNotFound);
        }
        assert LabelFits(entries[i]);
        var table := Blkx.LoadBlkxTable(meta, i);
        var offset, size := None, None;
        if table.Some? {
          var h := Blkx.HeaderOf(table.value);
          offset, size := Some(Blkx.SectorsToBytes(h.firstSectorNumber)), Some(Blkx.SectorsToBytes(h.sectorCount));
        }
        var nt := NameType.ParseNameAndType(nameAndType.value, "", "");
        if !nt.ok && partitions == [] {
          return Success(false);
        }
        partitions := partitions + [Partition(nt.name, nt.partType, offset, size)];
        i := i + 1;
      }
      return Success(true);
    }

    /** loadKoly: the metadata path, and when it does not succeed the scheme fallback, whose list replaces the old one. */
    method LoadKoly(entries: Option<seq<Entry>>, schemes: Schemes) returns (r: Result<Source, DmgError>)
      requires Blkx.Readable(meta) && (entries.Some? ==> EntriesFit(entries.value))
      modifies this
      ensures Outcome(r, partitions) == KolyOutcome(meta, old(partitions), entries, schemes)
    {
      var simpleWayOK := false;
      if entries.Some? {
        var loaded := LoadPartitionElements(entries.value);
        if loaded.Failure? {
          return Failure(loaded.error);
        }
        simpleWayOK := loaded.value;
      }
      if simpleWayOK {
        return Success(FromMetadata);
      }
      var rm1 := Blkx.LoadBlkxTable(meta, -1);
      var scheme;
      if schemes.isAppleDisk(rm1) {
        scheme := ApplePartitionMap;
      } else if schemes.isGptDisk(rm1) {
        scheme := GuidPartitionTable;
      } else {
        return Failure(UnknownPartitionTable);
      }
      var r1 := Blkx.LoadBlkxTable(meta, InnerBlock(scheme));
      partitions := schemes.partitionsOf(scheme, rm1, r1);
      return Success(scheme);
    }

    /**
     * readerForPartition: scans table IDs from -1 up for the first table that
     * starts at the partition's offset, and wraps it in a reader cached as
     * "part-" followed by the index. The scan has no bound of its own; it
     * ends because such a table exists.
     */
    method ReaderForPartition(index: nat) returns (reader: PartitionReader, id: int)
      requires Blkx.Readable(meta) && index < |partitions|
      requires exists w :: w >= -1 && Matches(meta, w, partitions[index].offset)
      ensures id >= -1 && Matches(meta, id, partitions[index].offset)
      ensures forall j :: -1 <= j < id ==> !Matches(meta, j, partitions[index].offset)
      ensures Blkx.LoadTable(meta, id) == Some(reader.table)
      ensures reader.cacheKey == CacheKey(index)
    {
      var offset := partitions[index].offset;
      ghost var w :| w >= -1 && Matches(meta, w, offset);
      var i := -1;
      while true
        invariant -1 <= i <= w
        invariant forall j :: -1 <= j < i ==> !Matches(meta, j, offset)
        decreases w - i
      {
        var found, table := TableAt(i, offset);
        if found {
          return PartitionReader(table, CacheKey(index)), i;
        }
        ghost var skipped := !Matches(meta, i, offset);
        forall j | -1 <= j < i + 1
          ensures !Matches(meta, j, offset)
        {
          if j == i {
            assert skipped;
          }
        }
        i := i + 1;
      }
    }

    /** One step of the scan: whether table `id` exists and starts at `offset`, and its bytes. */
    method TableAt(id: int, offset: Option<nat>) returns (found: bool, table: seq<uint8>)
      requires Blkx.Readable(meta)
      ensures found <==> Matches(meta, id, offset)
      ensures found ==> Blkx.LoadTable(meta, id) == Some(table)
    {
      var loaded := Blkx.LoadBlkxTable(meta, id);
      found, table := false, [];
      if loaded.Some? {
        Blkx.LoadedTableHoldsHeader(meta, id);
        var h := Blkx.HeaderOf(loaded.value);
        found, table := Some(Blkx.SectorsToBytes(h.firstSectorNumber)) == offset, loaded.value;
      }
    }
  }

  /**
   * The constructor: the trailer checks, then loadKoly on the plist the
   * image's XML holds.
   */
  method Open(file: seq<uint8>, plist: Plist, schemes: Schemes) returns (r: Result<DmgDisk, DmgError>)
    requires Blkx.Readable(plist.data) && (plist.entries.Some? ==> EntriesFit(plist.entries.value))
    ensures Udif.OpenTrailer(file).Failure? ==> r == Failure(Udif.OpenTrailer(file).error)
    ensures Udif.OpenTrailer(file).Success? ==>
      var loaded := KolyOutcome(plist.data, [], plist.entries, schemes);
      (r.Success? <==> loaded.result.Success?)
      && (r.Failure? ==> r.error == loaded.result.error)
      && (r.Success? ==> fresh(r.value) && r.value.meta == plist.data && r.value.partitions == loaded.partitions)
  {
    var trailer := Udif.OpenTrailer(file);
    if trailer.Failure? {
      return Failure(trailer.error);
    }
    var disk := new DmgDisk(plist.data);
    var loaded := disk.LoadKoly(plist.entries, schemes);
    if loaded.Failure? {
      return Failure(loaded.error);
    }
    return Success(disk);
  }
}

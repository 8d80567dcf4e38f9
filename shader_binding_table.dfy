/**
 * The ray-tracing shader binding table (`ShaderBindingTable.cpp`): shader
 * records are bound for ray generation, miss and hit groups, and `Commit`
 * lays them out as three tables in one upload allocation, following the
 * "Shader tables" rules of the DirectX Raytracing functional specification
 * (32-byte identifiers, records aligned to 32 bytes, tables to 64 bytes).
 * Byte copies are modelled as the list of `memcpy` calls, each with its
 * offset and what it copies: an identifier or a record's root arguments.
 */
module ShaderBindingTable {
  import opened Common

  /** `D3D12_SHADER_IDENTIFIER_SIZE_IN_BYTES`. */
  const IdentifierSize: nat := 32
  /** `D3D12_RAYTRACING_SHADER_RECORD_BYTE_ALIGNMENT`. */
  const RecordAlignment: nat := 32
  /** `D3D12_RAYTRACING_SHADER_TABLE_BYTE_ALIGNMENT`. */
  const TableAlignment: nat := 64
  /** The alignment of the whole allocation. */
  const TotalAlignment: nat := 256
  /** `sizeof(uint64)`: the size of one root argument. */
  const ArgumentSize: nat := 8

  /** The bytes readable at a record's identifier pointer. */
  type Identifier = seq<bv8>

  /** The placeholder identifier of an unnamed record as written: the empty
      string literal, whose only readable byte is its terminator. */
  const PlaceholderAsWritten: Identifier := [0]

  /** A null shader identifier: 32 zero bytes. */
  const NullIdentifier: Identifier := seq(IdentifierSize, _ => 0)

  datatype ShaderRecord = ShaderRecord(Identifier: Identifier, Data: seq<nat>)

  /** The record a resized miss list is padded with. */
  const DefaultRecord: ShaderRecord := ShaderRecord(NullIdentifier, [])

  /** `ComputeRecordSize`: an identifier plus the root arguments, rounded up
      to the record alignment. */
  function ComputeRecordSize(elements: nat): (r: nat)
    ensures r % RecordAlignment == 0
    ensures IdentifierSize + ArgumentSize * elements <= r < IdentifierSize + ArgumentSize * elements + RecordAlignment
  {
    AlignUp(IdentifierSize + ArgumentSize * elements, RecordAlignment)
  }

  /** No smaller aligned size holds the record. */
  lemma ComputeRecordSizeIsSmallest(elements: nat, size: nat)
    requires size % RecordAlignment == 0 && IdentifierSize + ArgumentSize * elements <= size
    ensures ComputeRecordSize(elements) <= size
  {
    AlignUpIsSmallest(IdentifierSize + ArgumentSize * elements, RecordAlignment, size);
  }

  /** The bytes a record needs: its identifier and its arguments. */
  function Footprint(r: ShaderRecord): nat {
    IdentifierSize + ArgumentSize * |r.Data|
  }

  /** The layout `Commit` computes. */
  datatype TableLayout = TableLayout(RayGenSection: nat, MissStart: nat, MissSection: nat,
                                     HitStart: nat, HitSection: nat, Total: nat)

  function Layout(rayGenSize: nat, missStride: nat, missCount: nat, hitStride: nat, hitCount: nat): (l: TableLayout)
    ensures l.RayGenSection == rayGenSize
    ensures l.MissSection == missStride * missCount && l.HitSection == hitStride * hitCount
    ensures l.MissStart % TableAlignment == 0 && l.HitStart % TableAlignment == 0
    ensures l.RayGenSection <= l.MissStart
    ensures l.MissStart + l.MissSection <= l.HitStart
    ensures l.HitStart + l.HitSection <= l.Total
    ensures l.Total % TotalAlignment == 0
  {
    var rayGenAligned := AlignUp(rayGenSize, TableAlignment);
    var missAligned := AlignUp(missStride * missCount, TableAlignment);
    var hitAligned := AlignUp(hitStride * hitCount, TableAlignment);
    ModOfMultiplePlus(0, 0, TableAlignment);
    AlignUpSumIsAligned(rayGenAligned, missAligned);
    TableLayout(rayGenSize, rayGenAligned, missStride * missCount, rayGenAligned + missAligned, hitStride * hitCount,
                AlignUp(rayGenAligned + missAligned + hitAligned, TotalAlignment))
  }

  lemma AlignUpSumIsAligned(a: nat, b: nat)
    requires a % TableAlignment == 0 && b % TableAlignment == 0
    ensures (a + b) % TableAlignment == 0
  {
    ModOfMultiplePlus(a / TableAlignment + b / TableAlignment, 0, TableAlignment);
    assert a + b == (a / TableAlignment + b / TableAlignment) * TableAlignment + 0;
  }

  /** Is byte `b` of the allocation inside table `section` (0 ray
      generation, 1 miss, 2 hit group)? */
  predicate InSection(l: TableLayout, section: nat, b: nat) {
    if section == 0 then b < l.RayGenSection
    else if section == 1 then l.MissStart <= b < l.MissStart + l.MissSection
    else if section == 2 then l.HitStart <= b < l.HitStart + l.HitSection
    else false
  }

  /** The tables lie inside the allocation and no two share a byte. */
  lemma LayoutSectionsDisjoint(rayGenSize: nat, missStride: nat, missCount: nat, hitStride: nat, hitCount: nat)
    ensures var l := Layout(rayGenSize, missStride, missCount, hitStride, hitCount);
            forall section: nat, b: nat :: InSection(l, section, b) ==> b < l.Total
    ensures var l := Layout(rayGenSize, missStride, missCount, hitStride, hitCount);
            forall s1: nat, s2: nat, b: nat :: InSection(l, s1, b) && InSection(l, s2, b) ==> s1 == s2
  {}

  /** `D3D12_GPU_VIRTUAL_ADDRESS_RANGE` and `..._AND_STRIDE`. */
  datatype AddressRange = AddressRange(StartAddress: nat, SizeInBytes: nat, StrideInBytes: nat)

  datatype DispatchRaysDesc = DispatchRaysDesc(RayGeneration: AddressRange, MissTable: AddressRange, HitGroupTable: AddressRange)

  /** What a `memcpy` reads from: a record's identifier or its root
      arguments. */
  datatype CopySource = IdentifierBytes(Bytes: Identifier) | RootArguments(Arguments: seq<nat>)

  /** A `memcpy` into the allocation at `Offset`. An identifier copy always
      moves `IdentifierSize` bytes; an argument copy moves 8 per argument. */
  datatype Copy = Copy(Offset: nat, Source: CopySource) {
    function Size(): nat {
      match Source
      case IdentifierBytes(_) => IdentifierSize
      case RootArguments(a) => ArgumentSize * |a|
    }
  }

  /** The two copies of a record placed at `offset`: its identifier, then
      its arguments. */
  function RecordCopies(offset: nat, r: ShaderRecord): seq<Copy> {
    [Copy(offset, IdentifierBytes(r.Identifier)), Copy(offset + IdentifierSize, RootArguments(r.Data))]
  }

  class ShaderBindingTable {
    /** The state object's identifier lookup. */
    const Lookup: string -> Option<Identifier>
    var RayGenRecord: ShaderRecord
    var RayGenRecordSize: nat
    var MissRecords: seq<ShaderRecord>
    var MissRecordSize: nat
    var HitRecords: seq<ShaderRecord>
    var HitRecordSize: nat
    var IdentifierMap: map<string, Identifier>

    /** Every cached identifier is 32 readable bytes. */
    ghost predicate IdentifiersValid()
      reads this
    {
      forall n :: n in IdentifierMap ==> |IdentifierMap[n]| == IdentifierSize
    }

    /** ... and so is every bound record's, and each fits in its table's
        stride. */
    ghost predicate Valid()
      reads this
    {
      && IdentifiersValid()
      && |RayGenRecord.Identifier| == IdentifierSize
      && (forall i :: 0 <= i < |MissRecords| ==>
            |MissRecords[i].Identifier| == IdentifierSize && Footprint(MissRecords[i]) <= MissRecordSize)
      && (forall i :: 0 <= i < |HitRecords| ==>
            |HitRecords[i].Identifier| == IdentifierSize && Footprint(HitRecords[i]) <= HitRecordSize)
    }

    constructor(lookup: string -> Option<Identifier>)
      ensures Valid()
      ensures Lookup == lookup && RayGenRecordSize == 0 && MissRecords == [] && HitRecords == []
      ensures MissRecordSize == 0 && HitRecordSize == 0 && IdentifierMap == map[]
    {
      Lookup := lookup;
      RayGenRecord := DefaultRecord;
      RayGenRecordSize := 0;
      MissRecords := [];
      MissRecordSize := 0;
      HitRecords := [];
      HitRecordSize := 0;
      IdentifierMap := map[];
    }

    /** The identifier of a name is looked up once and cached; an unnamed
        record gets the null identifier and no data. The lookup must succeed
        (the source checks the identifier is not null). */
    method CreateRecord(name: Option<string>, data: seq<nat>) returns (record: ShaderRecord)
      requires IdentifiersValid()
      requires name.Some? && name.value !in IdentifierMap ==>
                 Lookup(name.value).Some? && |Lookup(name.value).value| == IdentifierSize
      modifies this
      ensures IdentifiersValid()
      ensures RayGenRecord == old(RayGenRecord) && RayGenRecordSize == old(RayGenRecordSize)
      ensures MissRecords == old(MissRecords) && MissRecordSize == old(MissRecordSize)
      ensures HitRecords == old(HitRecords) && HitRecordSize == old(HitRecordSize)
      ensures name.None? ==> record == ShaderRecord(NullIdentifier, []) && IdentifierMap == old(IdentifierMap)
      ensures name.Some? && name.value in old(IdentifierMap) ==> IdentifierMap == old(IdentifierMap)
      ensures name.Some? && name.value !in old(IdentifierMap) ==>
                IdentifierMap == old(IdentifierMap)[name.value := Lookup(name.value).value]
      ensures name.Some? ==> record == ShaderRecord(IdentifierMap[name.value], data)
      ensures |record.Identifier| == IdentifierSize
    {
      if name.Some? {
        if name.value !in IdentifierMap {
          IdentifierMap := IdentifierMap[name.value := Lookup(name.value).value];
        }
        record := ShaderRecord(IdentifierMap[name.value], data);
      } else {
        record := ShaderRecord(NullIdentifier, []);
      }
    }

    method BindRayGenShader(name: Option<string>, data: seq<nat>)
      requires Valid()
      requires name.Some? && name.value !in IdentifierMap ==>
                 Lookup(name.value).Some? && |Lookup(name.value).value| == IdentifierSize
      modifies this
      ensures Valid()
      ensures RayGenRecordSize == ComputeRecordSize(|data|)
      ensures Footprint(RayGenRecord) <= RayGenRecordSize
      ensures RayGenRecord.Data == (if name.Some? then data else [])
      ensures name.None? || name.value in old(IdentifierMap) ==> IdentifierMap == old(IdentifierMap)
      ensures name.Some? && name.value !in old(IdentifierMap) ==>
                IdentifierMap == old(IdentifierMap)[name.value := Lookup(name.value).value]
      ensures name.Some? ==> RayGenRecord == ShaderRecord(IdentifierMap[name.value], data)
      ensures name.None? ==> RayGenRecord == ShaderRecord(NullIdentifier, [])
      ensures MissRecords == old(MissRecords) && HitRecords == old(HitRecords)
      ensures MissRecordSize == old(MissRecordSize) && HitRecordSize == old(HitRecordSize)
    {
      RayGenRecord := CreateRecord(name, data);
      RayGenRecordSize := ComputeRecordSize(|data|);
    }

    /** Grows the miss list to `rayIndex + 1` when needed and overwrites that
        slot; the miss stride is the largest record size bound so far. */
    method BindMissShader(name: Option<string>, rayIndex: nat, data: seq<nat>)
      requires Valid()
      requires name.Some? && name.value !in IdentifierMap ==>
                 Lookup(name.value).Some? && |Lookup(name.value).value| == IdentifierSize
      modifies this
      ensures Valid()
      ensures |MissRecords| == Max(|old(MissRecords)|, rayIndex + 1)
      ensures MissRecords[rayIndex].Data == (if name.Some? then data else [])
      ensures name.None? || name.value in old(IdentifierMap) ==> IdentifierMap == old(IdentifierMap)
      ensures name.Some? && name.value !in old(IdentifierMap) ==>
                IdentifierMap == old(IdentifierMap)[name.value := Lookup(name.value).value]
      ensures name.Some? ==> MissRecords[rayIndex] == ShaderRecord(IdentifierMap[name.value], data)
      ensures name.None? ==> MissRecords[rayIndex] == ShaderRecord(NullIdentifier, [])
      ensures forall i :: 0 <= i < |MissRecords| && i != rayIndex ==>
                MissRecords[i] == (if i < |old(MissRecords)| then old(MissRecords)[i] else DefaultRecord)
      ensures MissRecordSize == Max(old(MissRecordSize), ComputeRecordSize(|data|))
      ensures RayGenRecord == old(RayGenRecord) && RayGenRecordSize == old(RayGenRecordSize)
      ensures HitRecords == old(HitRecords) && HitRecordSize == old(HitRecordSize)
    {
      if rayIndex >= |MissRecords| {
        MissRecords := MissRecords + seq(rayIndex + 1 - |MissRecords|, _ => DefaultRecord);
      }
      var record := CreateRecord(name, data);
      MissRecords := MissRecords[rayIndex := record];
      var entrySize := ComputeRecordSize(|data|);
      MissRecordSize := Max(MissRecordSize, entrySize);
    }

    /** Appends a hit group record; the hit stride is a running maximum. */
    method BindHitGroup(name: Option<string>, data: seq<nat>)
      requires Valid()
      requires name.Some? && name.value !in IdentifierMap ==>
                 Lookup(name.value).Some? && |Lookup(name.value).value| == IdentifierSize
      modifies this
      ensures Valid()
      ensures |HitRecords| == |old(HitRecords)| + 1 && HitRecords[..|old(HitRecords)|] == old(HitRecords)
      ensures HitRecords[|old(HitRecords)|].Data == (if name.Some? then data else [])
      ensures name.None? || name.value in old(IdentifierMap) ==> IdentifierMap == old(IdentifierMap)
      ensures name.Some? && name.value !in old(IdentifierMap) ==>
                IdentifierMap == old(IdentifierMap)[name.value := Lookup(name.value).value]
      ensures name.Some? ==> HitRecords[|old(HitRecords)|] == ShaderRecord(IdentifierMap[name.value], data)
      ensures name.None? ==> HitRecords[|old(HitRecords)|] == ShaderRecord(NullIdentifier, [])
      ensures HitRecordSize == Max(old(HitRecordSize), ComputeRecordSize(|data|))
      ensures RayGenRecord == old(RayGenRecord) && RayGenRecordSize == old(RayGenRecordSize)
      ensures MissRecords == old(MissRecords) && MissRecordSize == old(MissRecordSize)
    {
      var record := CreateRecord(name, data);
      HitRecords := HitRecords + [record];
      var entrySize := ComputeRecordSize(|data|);
      HitRecordSize := Max(HitRecordSize, entrySize);
    }

    /** Copies the records of one table, one stride apart from `start`. */
    static method WriteTable(records: seq<ShaderRecord>, stride: nat, start: nat) returns (copies: seq<Copy>)
      ensures copies == TableCopies(records, stride, start)
    {
      copies := [];
      var offset := start;
      for i := 0 to |records|
        invariant offset == start + i * stride
        invariant copies + TableCopies(records[i..], stride, offset) == TableCopies(records, stride, start)
      {
        assert records[i..] == [records[i]] + records[i + 1..];
        copies := copies + RecordCopies(offset, records[i]);
        offset := offset + stride;
      }
      assert records[|records|..] == [];
    }

    /** Lays the three tables out in an allocation at `gpuAddress`, copies
        every record into its slot and describes the tables for the
        dispatch. */
    static method WriteTables(gpuAddress: nat, rayGenSize: nat, rayGen: ShaderRecord,
                              missRecords: seq<ShaderRecord>, missStride: nat,
                              hitRecords: seq<ShaderRecord>, hitStride: nat)
      returns (desc: DispatchRaysDesc, total: nat, copies: seq<Copy>)
      requires Footprint(rayGen) <= rayGenSize
      requires forall i :: 0 <= i < |missRecords| ==> Footprint(missRecords[i]) <= missStride
      requires forall i :: 0 <= i < |hitRecords| ==> Footprint(hitRecords[i]) <= hitStride
      ensures var l := Layout(rayGenSize, missStride, |missRecords|, hitStride, |hitRecords|);
              && total == l.Total
              && desc == DispatchRaysDesc(
                   AddressRange(gpuAddress, l.RayGenSection, 0),
                   AddressRange(gpuAddress + l.MissStart, l.MissSection, missStride),
                   AddressRange(gpuAddress + l.HitStart, l.HitSection, hitStride))
              && copies == CommitCopies(l, rayGen, missRecords, missStride, hitRecords, hitStride)
      ensures EndBefore(copies, total)
    {
      var l := Layout(rayGenSize, missStride, |missRecords|, hitStride, |hitRecords|);
      total := l.Total;
      var missCopies := WriteTable(missRecords, missStride, l.MissStart);
      var hitCopies := WriteTable(hitRecords, hitStride, l.HitStart);
      copies := RecordCopies(0, rayGen) + missCopies + hitCopies;
      CommitCopiesFit(l, rayGen, missRecords, missStride, hitRecords, hitStride);
      desc := DispatchRaysDesc(
        AddressRange(gpuAddress, l.RayGenSection, 0),
        AddressRange(gpuAddress + l.MissStart, l.MissSection, missStride),
        AddressRange(gpuAddress + l.HitStart, l.HitSection, hitStride));
    }

    /** `Commit`: writes the tables of the bound records and clears them. A
        ray-generation record must have been bound since the last commit.
        The copies are the ray-generation record's, then the miss table's,
        then the hit table's, each inside its own table. */
    method Commit(gpuAddress: nat) returns (desc: DispatchRaysDesc, total: nat, copies: seq<Copy>)
      requires Valid()
      requires Footprint(RayGenRecord) <= RayGenRecordSize
      modifies this
      ensures Valid()
      ensures var l := Layout(old(RayGenRecordSize), old(MissRecordSize), |old(MissRecords)|,
                              old(HitRecordSize), |old(HitRecords)|);
              && total == l.Total
              && desc == DispatchRaysDesc(
                   AddressRange(gpuAddress, l.RayGenSection, 0),
                   AddressRange(gpuAddress + l.MissStart, l.MissSection, old(MissRecordSize)),
                   AddressRange(gpuAddress + l.HitStart, l.HitSection, old(HitRecordSize)))
              && copies == CommitCopies(l, old(RayGenRecord), old(MissRecords), old(MissRecordSize),
                                        old(HitRecords), old(HitRecordSize))
      ensures EndBefore(copies, total)
      ensures RayGenRecordSize == 0 && MissRecords == [] && MissRecordSize == 0
      ensures HitRecords == [] && HitRecordSize == 0
      ensures RayGenRecord == old(RayGenRecord) && IdentifierMap == old(IdentifierMap)
    {
      desc, total, copies := WriteTables(gpuAddress, RayGenRecordSize, RayGenRecord,
                                         MissRecords, MissRecordSize, HitRecords, HitRecordSize);
      RayGenRecordSize := 0;
      MissRecords := [];
      MissRecordSize := 0;
      HitRecords := [];
      HitRecordSize := 0;
    }
  }

  /** Does every copy end at or before `end`? */
  predicate EndBefore(copies: seq<Copy>, end: nat) {
    forall c :: c in copies ==> c.Offset + c.Size() <= end
  }

  /** Is the copy inside `[lo, hi)`? */
  predicate Within(c: Copy, lo: nat, hi: nat) {
    lo <= c.Offset && c.Offset + c.Size() <= hi
  }

  /** The copies of one table: each record's two copies, one stride apart
      from `start`. */
  function TableCopies(records: seq<ShaderRecord>, stride: nat, start: nat): (copies: seq<Copy>)
    ensures |copies| == 2 * |records|
  {
    if records == [] then []
    else RecordCopies(start, records[0]) + TableCopies(records[1..], stride, start + stride)
  }

  /** Record `i` of a table is copied to slot `i`: its own identifier at
      the slot's start, its own arguments right after. */
  lemma {:induction false} TableCopiesPlacement(records: seq<ShaderRecord>, stride: nat, start: nat)
    ensures forall i :: 0 <= i < |records| ==>
              TableCopies(records, stride, start)[2 * i] == Copy(start + i * stride, IdentifierBytes(records[i].Identifier))
              && TableCopies(records, stride, start)[2 * i + 1]
                 == Copy(start + i * stride + IdentifierSize, RootArguments(records[i].Data))
  {
    if records != [] {
      var rest := records[1..];
      var copies := TableCopies(records, stride, start);
      TableCopiesPlacement(rest, stride, start + stride);
      forall i | 0 < i < |records|
        ensures copies[2 * i] == Copy(start + i * stride, IdentifierBytes(records[i].Identifier))
        ensures copies[2 * i + 1] == Copy(start + i * stride + IdentifierSize, RootArguments(records[i].Data))
      {
        assert copies[2 * i] == TableCopies(rest, stride, start + stride)[2 * (i - 1)];
        assert copies[2 * i + 1] == TableCopies(rest, stride, start + stride)[2 * (i - 1) + 1];
        assert rest[i - 1] == records[i];
        assert i * stride == (i - 1) * stride + stride;
      }
    }
  }

  /** When every record fits the stride, each copy stays in its slot and
      inside the table. */
  lemma TableCopiesInSlots(records: seq<ShaderRecord>, stride: nat, start: nat)
    requires forall i :: 0 <= i < |records| ==> Footprint(records[i]) <= stride
    ensures var copies := TableCopies(records, stride, start);
            forall j :: 0 <= j < |copies| ==>
              && Within(copies[j], start + (j / 2) * stride, start + (j / 2 + 1) * stride)
              && Within(copies[j], start, start + stride * |records|)
  {
    var copies := TableCopies(records, stride, start);
    TableCopiesPlacement(records, stride, start);
    forall j | 0 <= j < |copies|
      ensures Within(copies[j], start + (j / 2) * stride, start + (j / 2 + 1) * stride)
      ensures Within(copies[j], start, start + stride * |records|)
    {
      var i := j / 2;
      assert j == 2 * i || j == 2 * i + 1;
      assert Footprint(records[i]) <= stride;
      assert (i + 1) * stride == i * stride + stride;
      MulMonotone(i + 1, |records|, stride);
      assert |records| * stride == stride * |records|;
    }
  }

  /** What `Commit` writes: the ray-generation record at offset 0, then the
      miss table and the hit table at their starts. */
  function CommitCopies(l: TableLayout, rayGen: ShaderRecord, missRecords: seq<ShaderRecord>, missStride: nat,
                        hitRecords: seq<ShaderRecord>, hitStride: nat): (copies: seq<Copy>)
    ensures |copies| == 2 * (1 + |missRecords| + |hitRecords|)
  {
    RecordCopies(0, rayGen) + TableCopies(missRecords, missStride, l.MissStart)
    + TableCopies(hitRecords, hitStride, l.HitStart)
  }

  /** From index `from` on, `copies` holds the copies of `records`, record
      `i` in slot `i` of the table at `start`: its own identifier at the
      slot's start, its own arguments right after. */
  predicate TablePlaced(copies: seq<Copy>, from: nat, records: seq<ShaderRecord>, stride: nat, start: nat) {
    && from + 2 * |records| <= |copies|
    && forall i :: 0 <= i < |records| ==>
         copies[from + 2 * i] == Copy(start + i * stride, IdentifierBytes(records[i].Identifier))
         && copies[from + 2 * i + 1] == Copy(start + i * stride + IdentifierSize, RootArguments(records[i].Data))
  }

  /** Every copy from index `from` to `to` lies inside `[lo, hi)`. */
  predicate AllWithin(copies: seq<Copy>, from: nat, to: nat, lo: nat, hi: nat) {
    && from <= to <= |copies|
    && forall j :: from <= j < to ==> Within(copies[j], lo, hi)
  }

  /** A table's copies placed after `prefix` keep their slots, shifted by
      the prefix's length. */
  lemma PlacedAfter(prefix: seq<Copy>, records: seq<ShaderRecord>, stride: nat, start: nat)
    requires forall i :: 0 <= i < |records| ==> Footprint(records[i]) <= stride
    ensures var copies := prefix + TableCopies(records, stride, start);
            && TablePlaced(copies, |prefix|, records, stride, start)
            && AllWithin(copies, |prefix|, |copies|, start, start + stride * |records|)
  {
    var table := TableCopies(records, stride, start);
    var copies := prefix + table;
    TableCopiesPlacement(records, stride, start);
    TableCopiesInSlots(records, stride, start);
    forall j | |prefix| <= j < |copies|
      ensures copies[j] == table[j - |prefix|]
    {}
  }

  /** Every copy of `Commit` lands in its own table: the first two inside
      the ray-generation table, the miss and hit records each in slot `i`
      of their table. */
  lemma CommitCopiesPlaced(l: TableLayout, rayGen: ShaderRecord, missRecords: seq<ShaderRecord>, missStride: nat,
                           hitRecords: seq<ShaderRecord>, hitStride: nat)
    requires l.MissSection == missStride * |missRecords| && l.HitSection == hitStride * |hitRecords|
    requires Footprint(rayGen) <= l.RayGenSection
    requires forall i :: 0 <= i < |missRecords| ==> Footprint(missRecords[i]) <= missStride
    requires forall i :: 0 <= i < |hitRecords| ==> Footprint(hitRecords[i]) <= hitStride
    ensures var copies := CommitCopies(l, rayGen, missRecords, missStride, hitRecords, hitStride);
            var missEnd := 2 + 2 * |missRecords|;
            && copies[..2] == RecordCopies(0, rayGen)
            && AllWithin(copies, 0, 2, 0, l.RayGenSection)
            && TablePlaced(copies, 2, missRecords, missStride, l.MissStart)
            && AllWithin(copies, 2, missEnd, l.MissStart, l.MissStart + l.MissSection)
            && TablePlaced(copies, missEnd, hitRecords, hitStride, l.HitStart)
            && AllWithin(copies, missEnd, |copies|, l.HitStart, l.HitStart + l.HitSection)
  {
    var withMiss := RecordCopies(0, rayGen) + TableCopies(missRecords, missStride, l.MissStart);
    var hit := TableCopies(hitRecords, hitStride, l.HitStart);
    MissTablePlaced(l, rayGen, missRecords, missStride, hit);
    HitTablePlaced(l, withMiss, hitRecords, hitStride);
  }

  /** The ray-generation copies and the miss table's, whatever follows. */
  lemma MissTablePlaced(l: TableLayout, rayGen: ShaderRecord, missRecords: seq<ShaderRecord>, missStride: nat,
                        rest: seq<Copy>)
    requires l.MissSection == missStride * |missRecords|
    requires Footprint(rayGen) <= l.RayGenSection
    requires forall i :: 0 <= i < |missRecords| ==> Footprint(missRecords[i]) <= missStride
    ensures var copies := RecordCopies(0, rayGen) + TableCopies(missRecords, missStride, l.MissStart) + rest;
            && copies[..2] == RecordCopies(0, rayGen)
            && AllWithin(copies, 0, 2, 0, l.RayGenSection)
            && TablePlaced(copies, 2, missRecords, missStride, l.MissStart)
            && AllWithin(copies, 2, 2 + 2 * |missRecords|, l.MissStart, l.MissStart + l.MissSection)
  {
    var withMiss := RecordCopies(0, rayGen) + TableCopies(missRecords, missStride, l.MissStart);
    PlacedAfter(RecordCopies(0, rayGen), missRecords, missStride, l.MissStart);
    PrefixKeepsPlacement(withMiss, rest, missRecords, missStride, l.MissStart, l.MissStart + l.MissSection);
    var copies := withMiss + rest;
    assert copies[..2] == RecordCopies(0, rayGen);
    assert copies[0] == Copy(0, IdentifierBytes(rayGen.Identifier)) && copies[1] == Copy(IdentifierSize, RootArguments(rayGen.Data));
  }

  /** The hit-group table after everything before it. */
  lemma HitTablePlaced(l: TableLayout, prefix: seq<Copy>, hitRecords: seq<ShaderRecord>, hitStride: nat)
    requires l.HitSection == hitStride * |hitRecords|
    requires forall i :: 0 <= i < |hitRecords| ==> Footprint(hitRecords[i]) <= hitStride
    ensures var copies := prefix + TableCopies(hitRecords, hitStride, l.HitStart);
            && TablePlaced(copies, |prefix|, hitRecords, hitStride, l.HitStart)
            && AllWithin(copies, |prefix|, |copies|, l.HitStart, l.HitStart + l.HitSection)
  {
    PlacedAfter(prefix, hitRecords, hitStride, l.HitStart);
  }

  /** Placement inside a prefix survives appending. */
  lemma PrefixKeepsPlacement(prefix: seq<Copy>, suffix: seq<Copy>, records: seq<ShaderRecord>, stride: nat,
                             start: nat, hi: nat)
    requires |prefix| == 2 + 2 * |records|
    requires TablePlaced(prefix, 2, records, stride, start)
    requires AllWithin(prefix, 2, |prefix|, start, hi)
    ensures TablePlaced(prefix + suffix, 2, records, stride, start)
    ensures AllWithin(prefix + suffix, 2, |prefix|, start, hi)
  {
    var copies := prefix + suffix;
    assert forall j :: 0 <= j < |prefix| ==> copies[j] == prefix[j];
  }

  /** ... and so every copy ends inside the allocation. */
  lemma CommitCopiesFit(l: TableLayout, rayGen: ShaderRecord, missRecords: seq<ShaderRecord>, missStride: nat,
                        hitRecords: seq<ShaderRecord>, hitStride: nat)
    requires l.MissSection == missStride * |missRecords| && l.HitSection == hitStride * |hitRecords|
    requires l.RayGenSection <= l.MissStart && l.MissStart + l.MissSection <= l.HitStart
    requires l.HitStart + l.HitSection <= l.Total
    requires Footprint(rayGen) <= l.RayGenSection
    requires forall i :: 0 <= i < |missRecords| ==> Footprint(missRecords[i]) <= missStride
    requires forall i :: 0 <= i < |hitRecords| ==> Footprint(hitRecords[i]) <= hitStride
    ensures EndBefore(CommitCopies(l, rayGen, missRecords, missStride, hitRecords, hitStride), l.Total)
  {
    CommitCopiesPlaced(l, rayGen, missRecords, missStride, hitRecords, hitStride);
    CommitCopiesBounded(l, CommitCopies(l, rayGen, missRecords, missStride, hitRecords, hitStride),
                        2 + 2 * |missRecords|);
  }

  /** Copies split between the three tables all end inside the allocation. */
  lemma CommitCopiesBounded(l: TableLayout, copies: seq<Copy>, missEnd: nat)
    requires 2 <= missEnd <= |copies|
    requires l.RayGenSection <= l.MissStart && l.MissStart + l.MissSection <= l.HitStart
    requires l.HitStart + l.HitSection <= l.Total
    requires AllWithin(copies, 0, 2, 0, l.RayGenSection)
    requires AllWithin(copies, 2, missEnd, l.MissStart, l.MissStart + l.MissSection)
    requires AllWithin(copies, missEnd, |copies|, l.HitStart, l.HitStart + l.HitSection)
    ensures EndBefore(copies, l.Total)
  {
    forall c | c in copies
      ensures c.Offset + c.Size() <= l.Total
    {
      var j :| 0 <= j < |copies| && copies[j] == c;
    }
  }

  /** The placeholder identifier as written has a single readable byte, but
      `Commit` copies a full identifier from it; the null identifier the
      model uses has all 32. */
  lemma PlaceholderIsTooShort()
    ensures |PlaceholderAsWritten| < IdentifierSize
    ensures |NullIdentifier| == IdentifierSize
    ensures forall i :: 0 <= i < |NullIdentifier| ==> NullIdentifier[i] == 0
  {}
}

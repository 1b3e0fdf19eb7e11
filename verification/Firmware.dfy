/** The OVMF image: a GUID table read backwards from the end of the file, and the SEV
    metadata it points to.  GUIDs are kept in the little-endian byte order of the image. */
module Firmware {
  import opened ByteStrings
  import opened Outcomes

  /** `Panic` stands for a slice out of range or an arithmetic underflow. */
  datatype OvmfError =
    | MismatchingGuid
    | InvalidFooterSize(size: nat)
    | InvalidEntrySize(size: nat)
    | EntryMissing(guid: Guid)
    | TableItem
    | BadSignature
    | BadVersion
    | BadSection
    | Panic

  const HEADER := 18
  const TAIL := 32
  const FOUR_GB := 0x1_0000_0000

  const FOOTER_GUID: Guid :=
    [0xde, 0x82, 0xb5, 0x96, 0xb2, 0x1f, 0xf7, 0x45, 0xba, 0xea, 0xa3, 0x66, 0xc5, 0x5a, 0x08, 0x2d]
  const HASH_TABLE_GUID: Guid :=
    [0x1f, 0x37, 0x55, 0x72, 0x3b, 0x3a, 0x04, 0x4b, 0x92, 0x7b, 0x1d, 0xa6, 0xef, 0xa8, 0xd4, 0x54]
  const RESET_BLOCK_GUID: Guid :=
    [0xde, 0x71, 0xf7, 0x00, 0x7e, 0x1a, 0xcb, 0x4f, 0x89, 0x0e, 0x68, 0xc7, 0x7e, 0x2f, 0xb4, 0x4e]
  const METADATA_GUID: Guid :=
    [0x66, 0x65, 0x88, 0xdc, 0x4a, 0x98, 0x98, 0x47, 0xa7, 0x5e, 0x55, 0x85, 0xa7, 0xbf, 0x67, 0xcc]
  const SIGNATURE: Bytes := [0x41, 0x53, 0x45, 0x56]

  type Table = map<Guid, Bytes>

  // ---------- the footer table as a layout ----------

  datatype Entry = Entry(guid: Guid, data: Bytes) {
    predicate Fits() { |data| + HEADER < 0x1_0000 }
  }

  /** An entry in memory: its data, then its total size, then its GUID. */
  function Encode(e: Entry): Bytes {
    e.data + LeBytes(|e.data| + HEADER, 2) + e.guid
  }

  function Layout(es: seq<Entry>): Bytes {
    if es == [] then [] else Encode(es[0]) + Layout(es[1..])
  }

  /** The table the entries stand for: of entries with the same GUID the one at the lowest
      address counts. */
  function TableOf(es: seq<Entry>): Table {
    if es == [] then map[] else TableOf(es[1..])[es[0].guid := es[0].data]
  }

  lemma {:induction false} LowestWins(es: seq<Entry>, g: Guid)
    ensures g in TableOf(es) <==> exists i :: 0 <= i < |es| && es[i].guid == g
    ensures forall i :: 0 <= i < |es| && es[i].guid == g && (forall j :: 0 <= j < i ==> es[j].guid != g) ==>
              TableOf(es)[g] == es[i].data
  {
    if es != [] {
      var rest := es[1..];
      LowestWins(rest, g);
      assert forall i :: 0 < i < |es| ==> es[i] == rest[i - 1];
      if es[0].guid != g {
        forall i | 0 <= i < |es| && es[i].guid == g && (forall j :: 0 <= j < i ==> es[j].guid != g)
          ensures TableOf(es)[g] == es[i].data
        {
          assert forall j :: 0 <= j < i - 1 ==> rest[j] == es[j + 1];
        }
      }
    }
  }

  /** A stretch of bytes at which the backwards scan stops: too short for an entry header,
      or ending in a header that claims more bytes than there are. */
  predicate Stuck(t: Bytes) {
    |t| < HEADER || |t| < LeValue(t[|t| - 18..|t| - 16])
  }

  // ---------- the backwards scan ----------

  /** The last entry of a table, and what precedes it. */
  datatype Cut = Cut(front: Bytes, entry: Entry)

  /** The entry at the high end, nothing where the scan stops, or an error. */
  function SplitLast(t: Bytes): (r: Result<Option<Cut>, OvmfError>)
    ensures r.Success? && r.value.Some? ==> |r.value.value.front| < |t|
  {
    if |t| < HEADER then Success(None)
    else
      var size := LeValue(t[|t| - 18..|t| - 16]);
      if size < HEADER then Failure(InvalidEntrySize(size))
      else if |t| < size then Success(None)
      else Success(Some(Cut(t[..|t| - size], Entry(t[|t| - 16..], t[|t| - size..|t| - 18]))))
  }

  /** The entries found by scanning back from the end of `t`, in address order. */
  function Scan(t: Bytes): Result<seq<Entry>, OvmfError>
    decreases |t|
  {
    match SplitLast(t)
    case Failure(e) => Failure(e)
    case Success(None) => Success([])
    case Success(Some(cut)) =>
      var rest :- Scan(cut.front);
      Success(rest + [cut.entry])
  }

  /** The bytes of the table in front of the footer. */
  function FooterBytes(data: Bytes): Result<Bytes, OvmfError> {
    if |data| < TAIL + HEADER then Failure(Panic)
    else
      var start := |data| - TAIL - HEADER;
      var size := LeValue(data[start..start + 2]);
      if data[start + 2..start + 18] != FOOTER_GUID then Failure(MismatchingGuid)
      else if size < HEADER then Failure(InvalidFooterSize(size))
      else if start < size - HEADER then Failure(Panic)
      else Success(data[start - (size - HEADER)..start])
  }

  function FooterTable(data: Bytes): Result<Table, OvmfError> {
    var t :- FooterBytes(data);
    var es :- Scan(t);
    Success(TableOf(es))
  }

  lemma LayoutSnoc(es: seq<Entry>, e: Entry)
    ensures Layout(es + [e]) == Layout(es) + Encode(e)
  {
    if es == [] {
      assert [e][1..] == [];
    } else {
      LayoutSnoc(es[1..], e);
      assert (es + [e])[1..] == es[1..] + [e];
      assert Layout(es + [e]) == Encode(es[0]) + (Layout(es[1..]) + Encode(e));
    }
  }

  /** The last header of a laid-out entry is where the scan looks for it. */
  lemma SplitEncoded(front: Bytes, e: Entry)
    requires e.Fits()
    ensures SplitLast(front + Encode(e)) == Success(Some(Cut(front, e)))
  {
    var t := front + Encode(e);
    assert t[|t| - 18..|t| - 16] == LeBytes(|e.data| + HEADER, 2);
    Powers();
    LeValueOfBytes(|e.data| + HEADER, 2);
    assert t[|t| - 16..] == e.guid;
    assert t[|t| - (|e.data| + HEADER)..|t| - 18] == e.data;
    assert t[..|t| - (|e.data| + HEADER)] == front;
  }

  /** Where the scan does not stop, the bytes end in an encoded entry. */
  lemma SplitSound(t: Bytes)
    requires SplitLast(t).Success?
    ensures match SplitLast(t).value
            case None => Stuck(t)
            case Some(cut) => cut.entry.Fits() && t == cut.front + Encode(cut.entry)
  {
    if SplitLast(t).value.Some? {
      var size := LeValue(t[|t| - 18..|t| - 16]);
      Powers();
      LeBytesOfValue(t[|t| - 18..|t| - 16]);
      assert Encode(SplitLast(t).value.value.entry) == t[|t| - size..];
    }
  }

  lemma StuckStops(t: Bytes)
    requires Stuck(t)
    ensures SplitLast(t) == Success(None)
  {
  }

  /** Scanning inverts the layout, whatever unreadable bytes precede it. */
  lemma {:induction false} ScanInverts(junk: Bytes, es: seq<Entry>)
    requires Stuck(junk)
    requires forall e :: e in es ==> e.Fits()
    ensures Scan(junk + Layout(es)) == Success(es)
    decreases |es|
  {
    if es == [] {
      assert junk + Layout(es) == junk;
      StuckStops(junk);
    } else {
      var front, e := es[..|es|-1], es[|es|-1];
      assert es == front + [e];
      ScanInverts(junk, front);
      TileOn(junk, front, e);
      SplitEncoded(junk + Layout(front), e);
    }
  }

  /** Conversely, a successful scan has found a layout that tiles everything but a stuck
      stretch at the low end. */
  lemma {:induction false} ScanTiles(t: Bytes) returns (junk: Bytes)
    requires Scan(t).Success?
    ensures Stuck(junk) && t == junk + Layout(Scan(t).value)
    ensures forall e :: e in Scan(t).value ==> e.Fits()
    decreases |t|
  {
    SplitSound(t);
    match SplitLast(t).value
    case None =>
      junk := t;
      assert t == t + Layout([]);
    case Some(cut) =>
      junk := ScanTiles(cut.front);
      TileOn(junk, Scan(cut.front).value, cut.entry);
  }

  lemma TileOn(junk: Bytes, es: seq<Entry>, e: Entry)
    ensures junk + Layout(es) + Encode(e) == junk + Layout(es + [e])
  {
    LayoutSnoc(es, e);
    Assoc(junk, Layout(es), Encode(e));
  }

  /** A whole image: anything, then the table, then its footer, then 32 more bytes. */
  function ImageOf(body: Bytes, t: Bytes, tail: Bytes): Bytes {
    body + t + LeBytes(|t| + HEADER, 2) + FOOTER_GUID + tail
  }

  /** The footer is found where it was put, with the table right before it. */
  lemma FooterFields(body: Bytes, t: Bytes, tail: Bytes)
    requires |tail| == TAIL && |t| + HEADER < 0x1_0000
    ensures FooterBytes(ImageOf(body, t, tail)) == Success(t)
  {
    var data := ImageOf(body, t, tail);
    var start := |body| + |t|;
    assert data == body + (t + (LeBytes(|t| + HEADER, 2) + (FOOTER_GUID + tail)));
    assert data[start..start + 2] == LeBytes(|t| + HEADER, 2);
    Powers();
    LeValueOfBytes(|t| + HEADER, 2);
    assert data[start + 2..start + 18] == FOOTER_GUID && data[start - |t|..start] == t;
  }

  /** Footer parsing inverts the layout, whatever stuck stretch precedes the entries. */
  lemma FooterInverts(body: Bytes, junk: Bytes, es: seq<Entry>, tail: Bytes)
    requires |tail| == TAIL && |junk + Layout(es)| + HEADER < 0x1_0000 && Stuck(junk)
    requires forall e :: e in es ==> e.Fits()
    ensures FooterTable(ImageOf(body, junk + Layout(es), tail)) == Success(TableOf(es))
  {
    ScanInverts(junk, es);
    FooterFields(body, junk + Layout(es), tail);
  }

  lemma FooterParts(data: Bytes) returns (body: Bytes, tail: Bytes)
    requires FooterBytes(data).Success?
    ensures var t := FooterBytes(data).value;
            data == ImageOf(body, t, tail) && |tail| == TAIL && |t| + HEADER < 0x1_0000
  {
    var start := |data| - TAIL - HEADER;
    var size := LeValue(data[start..start + 2]);
    body, tail := data[..start - (size - HEADER)], data[start + HEADER..];
    LeBytesOfValue(data[start..start + 2]);
    Powers();
    assert data == body + FooterBytes(data).value + data[start..start + 2] + data[start + 2..start + 18] + tail;
  }

  /** ... and succeeds only on images that have such a layout, which tiles the table exactly. */
  lemma FooterSound(data: Bytes) returns (body: Bytes, junk: Bytes, es: seq<Entry>, tail: Bytes)
    requires FooterTable(data).Success?
    ensures data == ImageOf(body, junk + Layout(es), tail) && |tail| == TAIL && Stuck(junk)
    ensures |junk + Layout(es)| + HEADER < 0x1_0000
    ensures forall e :: e in es ==> e.Fits()
    ensures FooterTable(data) == Success(TableOf(es))
  {
    body, tail := FooterParts(data);
    var t := FooterBytes(data).value;
    es := Scan(t).value;
    junk := ScanTiles(t);
  }

  // ---------- SEV metadata ----------

  datatype SectionType = SecMemory | SecretsPage | CpuidPage | KernelHashes {
    function Code(): Byte {
      match this
      case SecMemory => 1
      case SecretsPage => 2
      case CpuidPage => 3
      case KernelHashes => 0x10
    }
  }

  datatype Section = Section(gpa: U32, size: U32, kind: SectionType)

  function SectionTypeOf(b: Byte): Result<SectionType, OvmfError> {
    if b == 1 then Success(SecMemory)
    else if b == 2 then Success(SecretsPage)
    else if b == 3 then Success(CpuidPage)
    else if b == 0x10 then Success(KernelHashes)
    else Failure(BadSection)
  }

  const META_HEADER := 16
  const DESC := 12

  /** The descriptor at an offset; only the first byte of its type is decoded. */
  function SectionAt(items: Bytes, at: nat): Result<Section, OvmfError> {
    if at + DESC > |items| then Failure(Panic)
    else
      var kind :- SectionTypeOf(items[at + 8]);
      Success(Section(ReadU32(items, at), ReadU32(items, at + 4), kind))
  }

  function SectionsFrom(items: Bytes, i: nat, n: nat): Result<seq<Section>, OvmfError>
    requires i <= n
    decreases n - i
  {
    if i == n then Success([])
    else
      var first :- SectionAt(items, DESC * i);
      var rest :- SectionsFrom(items, i + 1, n);
      Success([first] + rest)
  }

  /** Where the metadata header starts, if the table entry and the image allow it. */
  function MetadataStart(data: Bytes, entry: Bytes): Result<nat, OvmfError> {
    if |entry| < 4 then Failure(Panic)
    else
      var back := ReadU32(entry, 0);
      if back >= 0x8000_0000 || back > |data| || back < META_HEADER then Failure(Panic)
      else Success(|data| - back)
  }

  datatype MetadataHeader = MetadataHeader(signature: Bytes, size: U32, version: U32, numItems: U32) {
    function Verify(): Result<(), OvmfError> {
      if signature != SIGNATURE then Failure(BadSignature)
      else if version != 1 then Failure(BadVersion)
      else Success(())
    }
  }

  function HeaderAt(data: Bytes, start: nat): MetadataHeader
    requires start + META_HEADER <= |data|
  {
    MetadataHeader(data[start..start + 4], ReadU32(data, start + 4), ReadU32(data, start + 8), ReadU32(data, start + 12))
  }

  /** The bytes the header says the descriptors occupy. */
  function ItemsOf(data: Bytes, start: nat, header: MetadataHeader): Result<Bytes, OvmfError> {
    if header.size < META_HEADER || start + header.size > |data| then Failure(Panic)
    else Success(data[start + META_HEADER..start + header.size])
  }

  function Metadata(data: Bytes, table: Table): Result<seq<Section>, OvmfError> {
    if METADATA_GUID !in table then Failure(EntryMissing(METADATA_GUID))
    else
      var start :- MetadataStart(data, table[METADATA_GUID]);
      var header := HeaderAt(data, start);
      var _ :- header.Verify();
      var items :- ItemsOf(data, start, header);
      SectionsFrom(items, 0, header.numItems)
  }

  function EncodeSection(s: Section): (e: Bytes)
    ensures |e| == DESC
  {
    LeBytes(s.gpa, 4) + LeBytes(s.size, 4) + [s.kind.Code(), 0, 0, 0]
  }

  function EncodeSections(ss: seq<Section>): (e: Bytes)
    ensures |e| == DESC * |ss|
  {
    if ss == [] then [] else EncodeSection(ss[0]) + EncodeSections(ss[1..])
  }

  lemma {:induction false} EncodedAt(ss: seq<Section>, i: nat)
    requires i < |ss|
    ensures EncodeSections(ss)[DESC * i..DESC * (i + 1)] == EncodeSection(ss[i])
  {
    var head, rest := EncodeSection(ss[0]), EncodeSections(ss[1..]);
    if i > 0 {
      EncodedAt(ss[1..], i - 1);
      assert (head + rest)[DESC * i..DESC * (i + 1)] == rest[DESC * (i - 1)..DESC * i];
    }
  }

  lemma SectionFields(s: Section)
    ensures var e := EncodeSection(s);
            LeValue(e[0..4]) == s.gpa && LeValue(e[4..8]) == s.size && e[8] == s.kind.Code()
  {
    var e := EncodeSection(s);
    assert e[0..4] == LeBytes(s.gpa, 4) && e[4..8] == LeBytes(s.size, 4);
    Powers();
    LeValueOfBytes(s.gpa, 4);
    LeValueOfBytes(s.size, 4);
  }

  lemma SectionFrom(items: Bytes, at: nat, s: Section)
    requires at + DESC <= |items| && items[at..at + DESC] == EncodeSection(s)
    ensures SectionAt(items, at) == Success(s)
  {
    SliceOfSlice(items, at, at + DESC, 0, 4);
    SliceOfSlice(items, at, at + DESC, 4, 8);
    assert items[at + 8] == items[at..at + DESC][8];
    SectionFields(s);
  }

  lemma SectionInverts(ss: seq<Section>, i: nat)
    requires i < |ss|
    ensures SectionAt(EncodeSections(ss), DESC * i) == Success(ss[i])
  {
    EncodedAt(ss, i);
    SectionFrom(EncodeSections(ss), DESC * i, ss[i]);
  }

  lemma {:induction false} SectionsInvert(ss: seq<Section>, i: nat)
    requires i <= |ss|
    ensures SectionsFrom(EncodeSections(ss), i, |ss|) == Success(ss[i..])
    decreases |ss| - i
  {
    if i < |ss| {
      SectionsInvert(ss, i + 1);
      SectionInverts(ss, i);
      assert ss[i..] == [ss[i]] + ss[i + 1..];
    } else {
      assert ss[i..] == [];
    }
  }

  function EncodeMetadata(ss: seq<Section>): Bytes {
    SIGNATURE + LeBytes(META_HEADER + DESC * |ss|, 4) + LeBytes(1, 4) + LeBytes(|ss|, 4) + EncodeSections(ss)
  }

  /** Metadata parsing inverts its layout, wherever in the image the table entry points. */
  lemma MetadataInverts(pre: Bytes, ss: seq<Section>, post: Bytes, table: Table)
    requires var back := META_HEADER + DESC * |ss| + |post|;
             && back < 0x8000_0000 && METADATA_GUID in table
             && |table[METADATA_GUID]| >= 4 && table[METADATA_GUID][0..4] == LeBytes(back, 4)
    ensures Metadata(pre + EncodeMetadata(ss) + post, table) == Success(ss)
  {
    var m := EncodeMetadata(ss);
    var data := pre + m + post;
    MetadataFields(ss);
    Powers();
    LeValueOfBytes(|m| + |post|, 4);
    SliceMiddle(pre, m, post);
    HeaderFrom(data, |pre|, m, ss);
    SliceOfSlice(data, |pre|, |pre| + |m|, 16, |m|);
    MetadataFrom(data, |pre|, ss, table);
  }

  lemma MetadataFrom(data: Bytes, start: nat, ss: seq<Section>, table: Table)
    requires METADATA_GUID in table && MetadataStart(data, table[METADATA_GUID]) == Success(start)
    requires META_HEADER + DESC * |ss| < 0x8000_0000
    requires HeaderAt(data, start) == MetadataHeader(SIGNATURE, META_HEADER + DESC * |ss|, 1, |ss|)
    requires ItemsOf(data, start, HeaderAt(data, start)) == Success(EncodeSections(ss))
    ensures Metadata(data, table) == Success(ss)
  {
    SectionsInvert(ss, 0);
    assert ss[0..] == ss;
  }

  lemma HeaderFrom(data: Bytes, start: nat, m: Bytes, ss: seq<Section>)
    requires |m| == META_HEADER + DESC * |ss| < 0x8000_0000 && start + |m| <= |data| && data[start..start + |m|] == m
    requires m[0..4] == SIGNATURE && LeValue(m[4..8]) == |m| && LeValue(m[8..12]) == 1
    requires LeValue(m[12..16]) == |ss|
    ensures HeaderAt(data, start) == MetadataHeader(SIGNATURE, |m|, 1, |ss|)
  {
    SliceOfSlice(data, start, start + |m|, 0, 4);
    SliceOfSlice(data, start, start + |m|, 4, 8);
    SliceOfSlice(data, start, start + |m|, 8, 12);
    SliceOfSlice(data, start, start + |m|, 12, 16);
  }

  lemma MetadataFields(ss: seq<Section>)
    requires META_HEADER + DESC * |ss| < 0x8000_0000
    ensures var m := EncodeMetadata(ss);
            && |m| == META_HEADER + DESC * |ss|
            && m[0..4] == SIGNATURE && LeValue(m[4..8]) == |m|
            && LeValue(m[8..12]) == 1 && LeValue(m[12..16]) == |ss|
            && m[16..|m|] == EncodeSections(ss)
  {
    var size := META_HEADER + DESC * |ss|;
    Quarters(SIGNATURE, LeBytes(size, 4), LeBytes(1, 4), LeBytes(|ss|, 4), EncodeSections(ss));
    Powers();
    LeValueOfBytes(size, 4);
    LeValueOfBytes(1, 4);
    LeValueOfBytes(|ss|, 4);
  }

  // ---------- the parsed image ----------

  /** An image whose table and metadata have been read. */
  datatype Image = Image(data: Bytes, table: Table, sections: seq<Section>) {
    /** `gpa`: images end at 4 GiB. */
    function Gpa(): (g: nat)
      requires |data| <= FOUR_GB
    {
      FOUR_GB - |data|
    }

    predicate HasSection(kind: SectionType) {
      exists i :: 0 <= i < |sections| && sections[i].kind == kind
    }

    function TableU32(guid: Guid): Result<U32, OvmfError> {
      if guid !in table then Failure(EntryMissing(guid))
      else if |table[guid]| < 4 then Failure(TableItem)
      else Success(ReadU32(table[guid], 0))
    }

    function HashTableGpa(): Result<U32, OvmfError> { TableU32(HASH_TABLE_GUID) }

    function ResetEip(): Result<U32, OvmfError> { TableU32(RESET_BLOCK_GUID) }
  }

  function ParseImage(data: Bytes): Result<Image, OvmfError> {
    var table :- FooterTable(data);
    var sections :- Metadata(data, table);
    Success(Image(data, table, sections))
  }

  /** `OVMF`, filled in place by its two parsers. */
  class Ovmf {
    const data: Bytes
    var table: Table
    var sections: seq<Section>

    constructor (data: Bytes)
      ensures this.data == data && table == map[] && sections == []
    {
      this.data := data;
      table, sections := map[], [];
    }

    /** Scans back from the footer; the offset falls by at least an entry header each time
        and every access is inside the table. */
    method ParseFooterTable() returns (r: Result<(), OvmfError>)
      modifies this`table
      ensures FooterTable(data).Success? ==> r == Success(()) && table == FooterTable(data).value
      ensures FooterTable(data).Failure? ==> r == Failure(FooterTable(data).error)
    {
      table := map[];
      if |data| < 32 + 18 { return Failure(Panic); }
      var start := |data| - 32 - 18;
      var footerSize := LeValue(data[start..start + 2]);
      if data[start + 2..start + 18] != FOOTER_GUID { return Failure(MismatchingGuid); }
      if footerSize < 18 { return Failure(InvalidFooterSize(footerSize)); }
      var tableSize := footerSize - 18;
      if start < tableSize { return Failure(Panic); }
      r := ScanTable(data[start - tableSize..start]);
    }

    method ScanTable(bytes: Bytes) returns (r: Result<(), OvmfError>)
      requires table == map[]
      modifies this`table
      ensures match Scan(bytes)
              case Failure(e) => r == Failure(e)
              case Success(es) => r == Success(()) && table == TableOf(es)
    {
      var offset := |bytes|;
      ghost var found: seq<Entry> := [];
      assert bytes[..offset] == bytes;
      AppendNothing(Scan(bytes));
      while offset >= 18
        invariant 0 <= offset <= |bytes|
        invariant table == TableOf(found)
        invariant Scan(bytes) == Append(Scan(bytes[..offset]), found)
        decreases offset
      {
        var size := LeValue(bytes[offset - 18..offset - 16]);
        SplitAt(bytes, offset);
        if size < 18 { return Failure(InvalidEntrySize(size)); }
        var guid := GuidAt(bytes, offset - 16);
        if offset < size { break; }
        StepBack(bytes[..offset], Cut(bytes[..offset - size], Entry(guid, bytes[offset - size..offset - 18])), found);
        table := table[guid := bytes[offset - size..offset - 18]];
        found := [Entry(guid, bytes[offset - size..offset - 18])] + found;
        offset := offset - size;
      }
      AppendFinal(bytes[..offset], found);
      r := Success(());
    }

    method ParseSevMetadata() returns (r: Result<(), OvmfError>)
      modifies this`sections
      ensures Metadata(data, table).Success? ==>
                r == Success(()) && sections == old(sections) + Metadata(data, table).value
      ensures Metadata(data, table).Failure? ==> r == Failure(Metadata(data, table).error)
    {
      if METADATA_GUID !in table { return Failure(EntryMissing(METADATA_GUID)); }
      var at := MetadataStart(data, table[METADATA_GUID]);
      if at.Failure? { return Failure(at.error); }
      var header := HeaderAt(data, at.value);
      var verified := header.Verify();
      if verified.Failure? { return Failure(verified.error); }
      var slice := ItemsOf(data, at.value, header);
      if slice.Failure? { return Failure(slice.error); }
      r := ReadSections(slice.value, header.numItems);
    }

    method ReadSections(items: Bytes, count: nat) returns (r: Result<(), OvmfError>)
      modifies this`sections
      ensures match SectionsFrom(items, 0, count)
              case Failure(e) => r == Failure(e)
              case Success(ss) => r == Success(()) && sections == old(sections) + ss
    {
      ghost var read: seq<Section> := [];
      PrependNothing(SectionsFrom(items, 0, count));
      for i := 0 to count
        invariant sections == old(sections) + read
        invariant SectionsFrom(items, 0, count) == Prepend(read, SectionsFrom(items, i, count))
      {
        var item := SectionAt(items, i * 12);
        if item.Failure? { return Failure(item.error); }
        sections := sections + [item.value];
        PrependStep(read, item.value, SectionsFrom(items, i + 1, count));
        read := read + [item.value];
      }
      assert read + [] == read;
      r := Success(());
    }

    method Parse() returns (r: Result<Image, OvmfError>)
      requires sections == []
      modifies this
      ensures r == ParseImage(data)
    {
      var footer := ParseFooterTable();
      if footer.Failure? { return Failure(footer.error); }
      var meta := ParseSevMetadata();
      if meta.Failure? { return Failure(meta.error); }
      assert old(sections) + Metadata(data, table).value == Metadata(data, table).value;
      r := Success(Image(data, table, sections));
    }
  }

  function Append<T>(r: Result<seq<T>, OvmfError>, found: seq<T>): Result<seq<T>, OvmfError> {
    if r.Failure? then r else Success(r.value + found)
  }

  lemma AppendNothing<T>(r: Result<seq<T>, OvmfError>)
    ensures Append(r, []) == r
  {
    if r.Success? { assert r.value + [] == r.value; }
  }

  function Prepend<T>(found: seq<T>, r: Result<seq<T>, OvmfError>): Result<seq<T>, OvmfError> {
    if r.Failure? then r else Success(found + r.value)
  }

  lemma PrependNothing<T>(r: Result<seq<T>, OvmfError>)
    ensures Prepend([], r) == r
  {
    if r.Success? { assert [] + r.value == r.value; }
  }

  lemma PrependStep<T>(found: seq<T>, x: T, r: Result<seq<T>, OvmfError>)
    ensures Prepend(found, Prepend([x], r)) == Prepend(found + [x], r)
  {
    if r.Success? { assert found + ([x] + r.value) == found + [x] + r.value; }
  }

  lemma AppendFinal(t: Bytes, found: seq<Entry>)
    requires SplitLast(t) == Success(None)
    ensures Append(Scan(t), found) == Success(found)
  {
    assert [] + found == found;
  }

  lemma AppendTwice<T>(r: Result<seq<T>, OvmfError>, a: seq<T>, b: seq<T>)
    ensures Append(Append(r, a), b) == Append(r, a + b)
  {
    if r.Success? { Assoc(r.value, a, b); }
  }

  lemma StepBack(t: Bytes, cut: Cut, found: seq<Entry>)
    requires SplitLast(t) == Success(Some(cut))
    ensures Append(Scan(t), found) == Append(Scan(cut.front), [cut.entry] + found)
  {
    assert Scan(t) == Append(Scan(cut.front), [cut.entry]);
    AppendTwice(Scan(cut.front), [cut.entry], found);
  }

  /** The header the scan looks at when it has come down to an offset of the table. */
  lemma SplitAt(bytes: Bytes, offset: nat)
    requires HEADER <= offset <= |bytes|
    ensures var size := LeValue(bytes[offset - 18..offset - 16]);
            var guid := GuidAt(bytes, offset - 16);
            SplitLast(bytes[..offset]) ==
            if size < HEADER then Failure(InvalidEntrySize(size))
            else if offset < size then Success(None)
            else Success(Some(Cut(bytes[..offset - size], Entry(guid, bytes[offset - size..offset - 18]))))
  {
    var t, size := bytes[..offset], LeValue(bytes[offset - 18..offset - 16]);
    SliceOfSlice(bytes, 0, offset, offset - 18, offset - 16);
    SliceOfSlice(bytes, 0, offset, offset - 16, offset);
    if HEADER <= size <= offset {
      SliceOfSlice(bytes, 0, offset, offset - size, offset - 18);
      SliceOfSlice(bytes, 0, offset, 0, offset - size);
      assert t[offset - 16..] == t[offset - 16..offset];
    }
  }

  /** An image laid out as firmware builds it: metadata somewhere in the body, a table entry
      saying how far from the end it starts, and the table before the footer.  Parsing gives
      back exactly what was laid out. */
  lemma ImageInverts(pre: Bytes, ss: seq<Section>, mid: Bytes, es: seq<Entry>, tail: Bytes, back: nat)
    requires |tail| == TAIL && |Layout(es)| + HEADER < 0x1_0000
    requires forall e :: e in es ==> e.Fits()
    requires METADATA_GUID in TableOf(es) && |TableOf(es)[METADATA_GUID]| >= 4
    requires back == |EncodeMetadata(ss)| + |mid| + |Layout(es)| + HEADER + TAIL < 0x8000_0000
    requires TableOf(es)[METADATA_GUID][0..4] == LeBytes(back, 4)
    ensures var data := ImageOf(pre + EncodeMetadata(ss) + mid, Layout(es), tail);
            ParseImage(data) == Success(Image(data, TableOf(es), ss))
  {
    var body, t := pre + EncodeMetadata(ss) + mid, Layout(es);
    assert [] + t == t;
    FooterInverts(body, [], es, tail);
    MetadataOfImage(pre, ss, mid, t, tail, TableOf(es));
    Parsed(ImageOf(body, t, tail), TableOf(es), ss);
  }

  lemma Parsed(data: Bytes, table: Table, ss: seq<Section>)
    requires FooterTable(data) == Success(table) && Metadata(data, table) == Success(ss)
    ensures ParseImage(data) == Success(Image(data, table, ss))
  {
  }

  lemma MetadataOfImage(pre: Bytes, ss: seq<Section>, mid: Bytes, t: Bytes, tail: Bytes, table: Table)
    requires METADATA_GUID in table && |table[METADATA_GUID]| >= 4
    requires var back := |EncodeMetadata(ss)| + |mid| + |t| + HEADER + |tail|;
             back < 0x8000_0000 && table[METADATA_GUID][0..4] == LeBytes(back, 4)
    ensures Metadata(ImageOf(pre + EncodeMetadata(ss) + mid, t, tail), table) == Success(ss)
  {
    Regroup(pre + EncodeMetadata(ss), mid, t, LeBytes(|t| + HEADER, 2), FOOTER_GUID, tail);
    MetadataInverts(pre, ss, mid + t + LeBytes(|t| + HEADER, 2) + FOOTER_GUID + tail, table);
  }

  lemma Regroup(front: Bytes, mid: Bytes, t: Bytes, size: Bytes, guid: Bytes, tail: Bytes)
    ensures front + mid + t + size + guid + tail == front + (mid + t + size + guid + tail)
  {
    Assoc(front, mid, t);
    Assoc(front, mid + t, size);
    Assoc(front, mid + t + size, guid);
    Assoc(front, mid + t + size + guid, tail);
  }
}

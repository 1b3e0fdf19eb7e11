/** Which images parse and to what, by byte positions: an account of the firmware parsers that
    does not go through their intermediate structures. */
module ImageFormat {
  import opened ByteStrings
  import opened Outcomes
  import opened Firmware

  // ---------- GUIDs ----------

  /** 96b582de-1fb2-45f7-baea-a366c55a082d. */
  lemma FooterGuid()
    ensures FOOTER_GUID == Stored([0x96, 0xb5, 0x82, 0xde, 0x1f, 0xb2, 0x45, 0xf7,
                                   0xba, 0xea, 0xa3, 0x66, 0xc5, 0x5a, 0x08, 0x2d])
  {
  }

  /** 7255371f-3a3b-4b04-927b-1da6efa8d454. */
  lemma HashTableGuid()
    ensures HASH_TABLE_GUID == Stored([0x72, 0x55, 0x37, 0x1f, 0x3a, 0x3b, 0x4b, 0x04,
                                       0x92, 0x7b, 0x1d, 0xa6, 0xef, 0xa8, 0xd4, 0x54])
  {
  }

  /** 00f771de-1a7e-4fcb-890e-68c77e2fb44e. */
  lemma ResetBlockGuid()
    ensures RESET_BLOCK_GUID == Stored([0x00, 0xf7, 0x71, 0xde, 0x1a, 0x7e, 0x4f, 0xcb,
                                        0x89, 0x0e, 0x68, 0xc7, 0x7e, 0x2f, 0xb4, 0x4e])
  {
  }

  /** dc886566-984a-4798-a75e-5585a7bf67cc. */
  lemma MetadataGuid()
    ensures METADATA_GUID == Stored([0xdc, 0x88, 0x65, 0x66, 0x98, 0x4a, 0x47, 0x98,
                                     0xa7, 0x5e, 0x55, 0x85, 0xa7, 0xbf, 0x67, 0xcc])
  {
  }

  // ---------- the footer and its table ----------

  /** The table is found from the end of the file: 32 bytes, a GUID, the size of the table and
      footer together. */
  lemma FooterExact(data: Bytes)
    ensures FooterBytes(data) ==
            var n := |data|;
            if n < 50 then Failure(Panic)
            else if data[n - 48..n - 32] != FOOTER_GUID then Failure(MismatchingGuid)
            else
              var size := Pair(data[n - 50], data[n - 49]);
              if size < 18 then Failure(InvalidFooterSize(size))
              else if n < 32 + size then Failure(Panic)
              else Success(data[n - 32 - size..n - 50])
  {
    var n := |data|;
    if n >= 50 {
      PairValue(data[n - 50..n - 48]);
    }
  }

  /** An entry ends in its total size and its GUID. */
  lemma EntryBytes(e: Entry)
    requires e.Fits()
    ensures var s, n := Encode(e), |e.data|;
            && |s| == n + 18 && s[0..n] == e.data
            && Pair(s[n], s[n + 1]) == n + 18 && s[n + 2..n + 18] == e.guid
  {
    var size := LeBytes(|e.data| + 18, 2);
    EntryParts(e.data, size, e.guid);
    PairValue(size);
    Powers();
    LeValueOfBytes(|e.data| + 18, 2);
  }

  lemma EntryParts(d: Bytes, w: Bytes, g: Bytes)
    requires |w| == 2 && |g| == 16
    ensures var s, n := d + w + g, |d|;
            s[0..n] == d && s[n] == w[0] && s[n + 1] == w[1] && s[n + 2..n + 18] == g
  {
  }

  /** A scan fails exactly when, behind entries it has read, the next header claims less than
      its own size. */
  predicate TooSmall(t: Bytes, front: Bytes, es: seq<Entry>, size: nat) {
    && t == front + Layout(es) && (forall e :: e in es ==> e.Fits())
    && |front| >= 18 && Pair(front[|front| - 18], front[|front| - 17]) == size && size < 18
  }

  lemma {:induction false} ScanFails(t: Bytes) returns (front: Bytes, es: seq<Entry>)
    requires Scan(t).Failure?
    ensures Scan(t).error.InvalidEntrySize? && TooSmall(t, front, es, Scan(t).error.size)
    decreases |t|
  {
    match SplitLast(t)
    case Failure(e) =>
      front, es := t, [];
      PairValue(t[|t| - 18..|t| - 16]);
      assert t == t + Layout([]);
    case Success(Some(cut)) =>
      SplitSound(t);
      front, es := ScanFails(cut.front);
      TileOn(front, es, cut.entry);
      es := es + [cut.entry];
  }

  lemma {:induction false} ScanStops(t: Bytes, front: Bytes, es: seq<Entry>, size: nat)
    requires TooSmall(t, front, es, size)
    ensures Scan(t) == Failure(InvalidEntrySize(size))
    decreases |es|
  {
    if es == [] {
      assert t == front;
      PairValue(t[|t| - 18..|t| - 16]);
    } else {
      var init, e := es[..|es|-1], es[|es|-1];
      assert es == init + [e];
      TileOn(front, init, e);
      ScanStops(front + Layout(init), front, init, size);
      SplitEncoded(front + Layout(init), e);
    }
  }

  // ---------- SEV metadata ----------

  /** A section descriptor: address, size, and one byte of type. */
  predicate DescriptorAt(s: Bytes, at: nat, sec: Section) {
    && at + 12 <= |s| && LeValue(s[at..at + 4]) == sec.gpa && LeValue(s[at + 4..at + 8]) == sec.size
    && s[at + 8] == match sec.kind
                    case SecMemory => 1
                    case SecretsPage => 2
                    case CpuidPage => 3
                    case KernelHashes => 0x10
  }

  lemma SectionExact(s: Bytes, at: nat)
    ensures forall sec :: SectionAt(s, at) == Success(sec) <==> DescriptorAt(s, at, sec)
    ensures SectionAt(s, at) == Failure(Panic) <==> at + 12 > |s|
    ensures SectionAt(s, at) == Failure(BadSection) <==> at + 12 <= |s| && s[at + 8] !in {1, 2, 3, 0x10}
    ensures SectionAt(s, at).Failure? ==> SectionAt(s, at).error in {Panic, BadSection}
  {
  }

  /** Descriptors one after another from an offset. */
  predicate AllHeld(s: Bytes, from: nat, ss: seq<Section>)
    decreases |ss|
  {
    ss == [] || (DescriptorAt(s, from, ss[0]) && AllHeld(s, from + 12, ss[1..]))
  }

  lemma {:induction false} EachHeld(s: Bytes, from: nat, ss: seq<Section>, k: nat)
    requires AllHeld(s, from, ss) && k < |ss|
    ensures DescriptorAt(s, from + 12 * k, ss[k])
    decreases |ss|
  {
    if k > 0 { EachHeld(s, from + 12, ss[1..], k - 1); }
  }

  /** Reading descriptors from the i-th to before the n-th. */
  lemma {:induction false} SectionsExact(items: Bytes, i: nat, n: nat, ss: seq<Section>)
    requires i <= n
    ensures SectionsFrom(items, i, n) == Success(ss) <==> |ss| == n - i && AllHeld(items, 12 * i, ss)
    decreases n - i
  {
    if i < n {
      SectionExact(items, 12 * i);
      if ss != [] {
        var rest := ss[1..];
        SectionsExact(items, i + 1, n, rest);
        assert ss == [ss[0]] + rest;
      }
    }
  }

  /** What the table entry and the image must be like for the sections to be these: an offset
      from the end, the signature "ASEV", a size that covers the descriptors, version 1 and
      the number of descriptors. */
  predicate DescribedBy(data: Bytes, entry: Bytes, ss: seq<Section>) {
    && |entry| >= 4
    && var back := LeValue(entry[0..4]);
       && 16 <= back <= |data| && back < 0x8000_0000
       && HeaderDescribes(data, |data| - back, ss)
  }

  predicate HeaderDescribes(data: Bytes, start: nat, ss: seq<Section>)
    requires start + 16 <= |data|
  {
    && data[start..start + 4] == [0x41, 0x53, 0x45, 0x56]
    && LeValue(data[start + 8..start + 12]) == 1 && LeValue(data[start + 12..start + 16]) == |ss|
    && var size := LeValue(data[start + 4..start + 8]);
       && 16 + 12 * |ss| <= size && start + size <= |data|
       && AllHeld(data, start + 16, ss)
  }

  /** A descriptor inside the stretch the header delimits. */
  lemma DescriptorMoves(data: Bytes, from: nat, to: nat, at: nat, sec: Section)
    requires from <= to <= |data|
    ensures DescriptorAt(data[from..to], at, sec) <==> at + 12 <= to - from && DescriptorAt(data, from + at, sec)
  {
    if at + 12 <= to - from {
      SliceOfSlice(data, from, to, at, at + 4);
      SliceOfSlice(data, from, to, at + 4, at + 8);
      assert data[from..to][at + 8] == data[from + at + 8];
    }
  }

  lemma {:induction false} AllMove(data: Bytes, from: nat, to: nat, at: nat, ss: seq<Section>)
    requires from <= to <= |data| && at <= to - from
    ensures AllHeld(data[from..to], at, ss) <==> from + at + 12 * |ss| <= to && AllHeld(data, from + at, ss)
    decreases |ss|
  {
    if ss != [] {
      DescriptorMoves(data, from, to, at, ss[0]);
      if at + 12 <= to - from { AllMove(data, from, to, at + 12, ss[1..]); }
    }
  }

  lemma ItemsExact(data: Bytes, from: nat, to: nat, ss: seq<Section>)
    requires from <= to <= |data|
    ensures SectionsFrom(data[from..to], 0, |ss|) == Success(ss) <==>
              from + 12 * |ss| <= to && AllHeld(data, from, ss)
  {
    SectionsExact(data[from..to], 0, |ss|, ss);
    AllMove(data, from, to, 0, ss);
  }

  lemma SectionsCount(items: Bytes, i: nat, n: nat)
    requires i <= n
    ensures SectionsFrom(items, i, n).Success? ==> |SectionsFrom(items, i, n).value| == n - i
    decreases n - i
  {
  }

  /** Metadata parses to these sections exactly when the table has its entry and the image
      describes them; in particular every other signature, version, size or type is
      rejected. */
  lemma MetadataExact(data: Bytes, table: Table, ss: seq<Section>)
    ensures Metadata(data, table) == Success(ss) <==>
              METADATA_GUID in table && DescribedBy(data, table[METADATA_GUID], ss)
  {
    if METADATA_GUID in table && MetadataStart(data, table[METADATA_GUID]).Success? {
      var start := MetadataStart(data, table[METADATA_GUID]).value;
      var header := HeaderAt(data, start);
      if ItemsOf(data, start, header).Success? {
        ItemsExact(data, start + 16, start + header.size, ss);
        SectionsCount(ItemsOf(data, start, header).value, 0, header.numItems);
      }
    }
  }

  /** The errors of a metadata header, in order. */
  lemma MetadataErrors(data: Bytes, table: Table)
    ensures Metadata(data, table) == Failure(EntryMissing(METADATA_GUID)) <==> METADATA_GUID !in table
    ensures METADATA_GUID in table && MetadataStart(data, table[METADATA_GUID]).Success? ==>
              (var start := MetadataStart(data, table[METADATA_GUID]).value;
               && (Metadata(data, table) == Failure(BadSignature) <==>
                     data[start..start + 4] != [0x41, 0x53, 0x45, 0x56])
               && (Metadata(data, table) == Failure(BadVersion) <==>
                     data[start..start + 4] == [0x41, 0x53, 0x45, 0x56] && LeValue(data[start + 8..start + 12]) != 1))
  {
    if METADATA_GUID in table && MetadataStart(data, table[METADATA_GUID]).Success? {
      var start := MetadataStart(data, table[METADATA_GUID]).value;
      var header := HeaderAt(data, start);
      if ItemsOf(data, start, header).Success? {
        SectionErrors(ItemsOf(data, start, header).value, 0, header.numItems);
      }
    }
  }

  /** Descriptors fail at the first one that lies past the end, or whose type is unknown. */
  lemma {:induction false} SectionErrors(items: Bytes, i: nat, n: nat)
    requires i <= n
    ensures SectionsFrom(items, i, n).Failure? ==>
              (exists k :: i <= k < n && BadAt(items, k) == Some(SectionsFrom(items, i, n).error)
                 && forall j :: i <= j < k ==> BadAt(items, j).None?)
    decreases n - i
  {
    if i < n {
      SectionExact(items, 12 * i);
      if SectionAt(items, 12 * i).Failure? {
        assert BadAt(items, i) == Some(SectionsFrom(items, i, n).error);
      } else {
        SectionErrors(items, i + 1, n);
      }
    }
  }

  function BadAt(items: Bytes, k: nat): Option<OvmfError> {
    if 12 * k + 12 > |items| then Some(Panic)
    else if items[12 * k + 8] !in {1, 2, 3, 0x10} then Some(BadSection)
    else None
  }

  // ---------- lookups ----------

  /** Looking up a word: the first four bytes of the entry, or what is wrong with it. */
  ghost predicate LooksUp(table: Table, guid: Guid, r: Result<U32, OvmfError>) {
    if guid !in table then r == Failure(EntryMissing(guid))
    else if |table[guid]| < 4 then r == Failure(TableItem)
    else r.Success? && r.value == LeValue(table[guid][0..4])
  }

  /** The hash table address is read from the entry 7255371f-..., the reset address from the
      entry 00f771de-... */
  lemma LookupsExact(image: Image)
    ensures LooksUp(image.table, Stored([0x72, 0x55, 0x37, 0x1f, 0x3a, 0x3b, 0x4b, 0x04,
                                         0x92, 0x7b, 0x1d, 0xa6, 0xef, 0xa8, 0xd4, 0x54]), image.HashTableGpa())
    ensures LooksUp(image.table, Stored([0x00, 0xf7, 0x71, 0xde, 0x1a, 0x7e, 0x4f, 0xcb,
                                         0x89, 0x0e, 0x68, 0xc7, 0x7e, 0x2f, 0xb4, 0x4e]), image.ResetEip())
  {
    HashTableGuid();
    ResetBlockGuid();
  }
}

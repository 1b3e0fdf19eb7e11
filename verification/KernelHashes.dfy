/** The page of kernel, initrd and command-line hashes that OVMF checks at boot. */
module KernelHashTable {
  import opened ByteStrings
  import opened Outcomes

  type Hash32 = s: Bytes | |s| == 32 witness Zeros(32)
  type Sha256 = Bytes -> Hash32

  const TABLE_SIZE := 168
  const PADDED_SIZE := 176

  const HEADER_GUID: Guid :=
    [0x06, 0xd6, 0x38, 0x94, 0x22, 0x4f, 0xc9, 0x4c, 0xb4, 0x79, 0xa7, 0x93, 0xd4, 0x11, 0xfd, 0x21]
  const KERNEL_GUID: Guid :=
    [0x37, 0x94, 0xe7, 0x4d, 0xd2, 0xab, 0x7f, 0x42, 0xb8, 0x35, 0xd5, 0xb1, 0x72, 0xd2, 0x04, 0x5b]
  const INITRD_GUID: Guid :=
    [0x31, 0xf7, 0xba, 0x44, 0x2f, 0x3a, 0xd7, 0x4b, 0x9a, 0xf1, 0x41, 0xe2, 0x91, 0x69, 0x78, 0x1d]
  const CMDLINE_GUID: Guid :=
    [0xd8, 0x2d, 0xd0, 0x97, 0x20, 0xbd, 0x94, 0x4c, 0xaa, 0x78, 0xe7, 0x71, 0x4d, 0x36, 0xab, 0x2a]

  datatype SevHashes = SevHashes(kernel: Hash32, initrd: Hash32, cmdline: Hash32)

  /** The hashes of a kernel, an optional initrd and an optional (already trimmed) command line. */
  function HashesOf(sha256: Sha256, kernel: Bytes, initrd: Option<Bytes>, append: Option<Bytes>): SevHashes {
    SevHashes(
      sha256(kernel),
      sha256(if initrd.Some? then initrd.value else []),
      sha256(if append.Some? then append.value + [0] else [0]))
  }

  function TableEntry(guid: Guid, hash: Hash32): (s: Bytes)
    ensures |s| == 50
  {
    guid + LeBytes(50, 2) + hash
  }

  /** `construct_table`: header, three entries, padding to a multiple of 16. */
  function ConstructTable(h: SevHashes): (s: Bytes)
    ensures |s| == PADDED_SIZE
  {
    HEADER_GUID + LeBytes(TABLE_SIZE, 2) + TableEntry(CMDLINE_GUID, h.cmdline) +
    TableEntry(INITRD_GUID, h.initrd) + TableEntry(KERNEL_GUID, h.kernel) + Zeros(8)
  }

  // ---------- the table by its bytes ----------

  /** 9438d606-4f22-4cc9-b479-a793d411fd21. */
  lemma HeaderGuid()
    ensures HEADER_GUID == Stored([0x94, 0x38, 0xd6, 0x06, 0x4f, 0x22, 0x4c, 0xc9,
                                   0xb4, 0x79, 0xa7, 0x93, 0xd4, 0x11, 0xfd, 0x21])
  {
  }

  /** 4de79437-abd2-427f-b835-d5b172d2045b. */
  lemma KernelGuid()
    ensures KERNEL_GUID == Stored([0x4d, 0xe7, 0x94, 0x37, 0xab, 0xd2, 0x42, 0x7f,
                                   0xb8, 0x35, 0xd5, 0xb1, 0x72, 0xd2, 0x04, 0x5b])
  {
  }

  /** 44baf731-3a2f-4bd7-9af1-41e29169781d. */
  lemma InitrdGuid()
    ensures INITRD_GUID == Stored([0x44, 0xba, 0xf7, 0x31, 0x3a, 0x2f, 0x4b, 0xd7,
                                   0x9a, 0xf1, 0x41, 0xe2, 0x91, 0x69, 0x78, 0x1d])
  {
  }

  /** 97d02dd8-bd20-4c94-aa78-e7714d36ab2a. */
  lemma CmdlineGuid()
    ensures CMDLINE_GUID == Stored([0x97, 0xd0, 0x2d, 0xd8, 0xbd, 0x20, 0x4c, 0x94,
                                    0xaa, 0x78, 0xe7, 0x71, 0x4d, 0x36, 0xab, 0x2a])
  {
  }

  /** An entry at an offset: GUID, the length 50, hash. */
  predicate EntryAt(s: Bytes, at: nat, guid: Guid, hash: Hash32) {
    at + 50 <= |s| && s[at..at + 16] == guid && s[at + 16..at + 18] == [50, 0] && s[at + 18..at + 50] == hash
  }

  lemma EntryBytes(a: Bytes, guid: Guid, hash: Hash32, b: Bytes)
    ensures EntryAt(a + TableEntry(guid, hash) + b, |a|, guid, hash)
  {
    var e := TableEntry(guid, hash);
    var s := a + e + b;
    assert LeBytes(50, 2) == [50, 0] by { assert LeBytes(0, 1) == [0]; }
    assert e[0..16] == guid && e[16..18] == LeBytes(50, 2) && e[18..50] == hash;
    SliceMiddle(a, e, b);
    SliceOfSlice(s, |a|, |a| + 50, 0, 16);
    SliceOfSlice(s, |a|, |a| + 50, 16, 18);
    SliceOfSlice(s, |a|, |a| + 50, 18, 50);
  }

  /** The table: header GUID and the length 168, then command line, initrd and kernel, then
      eight zero bytes. */
  lemma TableBytes(h: SevHashes)
    ensures var s := ConstructTable(h);
            && |s| == 176 && s[0..16] == HEADER_GUID && s[16..18] == [168, 0]
            && EntryAt(s, 18, CMDLINE_GUID, h.cmdline) && EntryAt(s, 68, INITRD_GUID, h.initrd)
            && EntryAt(s, 118, KERNEL_GUID, h.kernel) && s[168..176] == Zeros(8)
  {
    var s := ConstructTable(h);
    var head: Bytes := HEADER_GUID + LeBytes(TABLE_SIZE, 2);
    var c, i, k := TableEntry(CMDLINE_GUID, h.cmdline), TableEntry(INITRD_GUID, h.initrd), TableEntry(KERNEL_GUID, h.kernel);
    assert LeBytes(168, 2) == [168, 0] by { assert LeBytes(0, 1) == [0]; }
    TableParts(head, c, i, k, Zeros(8));
    assert s[0..16] == HEADER_GUID && s[16..18] == LeBytes(TABLE_SIZE, 2);
    EntryBytes(head, CMDLINE_GUID, h.cmdline, i + k + Zeros(8));
    EntryBytes(head + c, INITRD_GUID, h.initrd, k + Zeros(8));
    EntryBytes(head + c + i, KERNEL_GUID, h.kernel, Zeros(8));
  }

  lemma TableParts(head: Bytes, c: Bytes, i: Bytes, k: Bytes, z: Bytes)
    ensures head + c + i + k + z == head + c + (i + k + z)
    ensures head + c + i + k + z == head + c + i + (k + z)
    ensures var s := head + c + i + k + z; s[..|head|] == head && s[|s| - |z|..] == z
  {
    Assoc(head + c, i, k);
    Assoc(head + c, i + k, z);
    Assoc(head + c + i, k, z);
  }

  /** What is hashed: the kernel, the initrd or nothing, and the command line, present or
      not, with a zero byte behind it. */
  lemma Hashed(sha256: Sha256, kernel: Bytes, initrd: Option<Bytes>, append: Option<Bytes>)
    ensures var h := HashesOf(sha256, kernel, initrd, append);
            && h.kernel == sha256(kernel)
            && (initrd.None? ==> h.initrd == sha256([])) && (initrd.Some? ==> h.initrd == sha256(initrd.value))
            && (exists line :: Terminated(line, if append.None? then [] else append.value) && h.cmdline == sha256(line))
  {
    var line: Bytes := if append.Some? then append.value + [0] else [0];
    assert Terminated(line, if append.None? then [] else append.value);
  }

  predicate Terminated(line: Bytes, s: Bytes) {
    |line| == |s| + 1 && line[|s|] == 0 && line[..|s|] == s
  }

  /** The page is zero but for the bytes of the table behind the offset. */
  lemma PageBytes(h: SevHashes, offset: nat, k: nat)
    requires k < 4096
    ensures HashPage(h, offset)[k] ==
            if k < offset || k >= offset + 176 then 0 else ConstructTable(h)[k - offset]
  {
  }

  // ---------- the page ----------

  /** `Vec::resize` with zero. */
  function Resize(s: Bytes, n: nat): (r: Bytes)
    ensures |r| == n
  {
    if n <= |s| then s[..n] else s + Zeros(n - |s|)
  }

  /** Byte `k` of the hash page: the table at its offset, cut at the end of the page. */
  function PageByte(h: SevHashes, offset: nat, k: nat): Byte {
    if offset <= k < offset + PADDED_SIZE then ConstructTable(h)[k - offset] else 0
  }

  function HashPage(h: SevHashes, offset: nat): (s: Bytes)
    ensures |s| == PAGE
  {
    seq(PAGE, k requires 0 <= k < PAGE => PageByte(h, offset, k))
  }

  lemma ResizedAt(s: Bytes, n: nat, k: nat)
    requires k < n
    ensures Resize(s, n)[k] == if k < |s| then s[k] else 0
  {
  }

  lemma PaddedAt(offset: nat, table: Bytes, k: nat)
    requires k < offset + |table|
    ensures (Resize([], offset) + table)[k] == if k < offset then 0 else table[k - offset]
  {
    if k < offset { ResizedAt([], offset, k); }
  }

  lemma Assembled(h: SevHashes, offset: nat)
    requires offset < PAGE
    ensures Resize(Resize([], offset) + ConstructTable(h), PAGE) == HashPage(h, offset)
  {
    AssembledFrom(h, offset, ConstructTable(h));
  }

  lemma AssembledFrom(h: SevHashes, offset: nat, table: Bytes)
    requires offset < PAGE && table == ConstructTable(h)
    ensures Resize(Resize([], offset) + table, PAGE) == HashPage(h, offset)
  {
    var s := Resize([], offset) + table;
    forall k | 0 <= k < PAGE ensures Resize(s, PAGE)[k] == HashPage(h, offset)[k] {
      ResizedAt(s, PAGE, k);
      if k < |s| { PaddedAt(offset, table, k); }
    }
  }

  datatype SevHashError = InvalidOffset(offset: int, limit: int) | InvalidSize(actual: int, expected: int)

  /** `construct_page`; the final length check never fails. */
  method ConstructPage(h: SevHashes, offset: nat) returns (r: Result<Bytes, SevHashError>)
    ensures offset >= PAGE ==> r == Failure(InvalidOffset(offset, PAGE))
    ensures offset < PAGE ==> r == Success(HashPage(h, offset))
  {
    if offset >= 4096 { return Failure(InvalidOffset(offset, 4096)); }
    var page: Bytes := Resize([], offset);
    page := page + ConstructTable(h);
    page := Resize(page, 4096);
    if |page| != 4096 { return Failure(InvalidSize(|page|, 4096)); }
    Assembled(h, offset);
    r := Success(page);
  }

  /** Two hash pages at one offset agree only if the tables agree where they fit. */
  lemma TableOnPage(h: SevHashes, h': SevHashes, offset: nat, n: nat)
    requires HashPage(h, offset) == HashPage(h', offset) && offset + n <= PAGE && n <= PADDED_SIZE
    ensures ConstructTable(h)[..n] == ConstructTable(h')[..n]
  {
    forall k | 0 <= k < n ensures ConstructTable(h)[k] == ConstructTable(h')[k] {
      assert HashPage(h, offset)[offset + k] == HashPage(h', offset)[offset + k];
    }
  }

  lemma EntryInjective(guid: Guid, a: Hash32, b: Hash32)
    requires TableEntry(guid, a) == TableEntry(guid, b)
    ensures a == b
  {
    SplitEqual(guid + LeBytes(50, 2), a, guid + LeBytes(50, 2), b);
  }

  lemma TableInjective(h: SevHashes, h': SevHashes)
    requires ConstructTable(h)[..TABLE_SIZE] == ConstructTable(h')[..TABLE_SIZE]
    ensures h == h'
  {
    var head: Bytes := HEADER_GUID + LeBytes(TABLE_SIZE, 2);
    var a, a' := head + TableEntry(CMDLINE_GUID, h.cmdline), head + TableEntry(CMDLINE_GUID, h'.cmdline);
    var b, b' := a + TableEntry(INITRD_GUID, h.initrd), a' + TableEntry(INITRD_GUID, h'.initrd);
    var c, c' := b + TableEntry(KERNEL_GUID, h.kernel), b' + TableEntry(KERNEL_GUID, h'.kernel);
    assert ConstructTable(h)[..TABLE_SIZE] == c && ConstructTable(h')[..TABLE_SIZE] == c';
    SplitEqual(b, TableEntry(KERNEL_GUID, h.kernel), b', TableEntry(KERNEL_GUID, h'.kernel));
    SplitEqual(a, TableEntry(INITRD_GUID, h.initrd), a', TableEntry(INITRD_GUID, h'.initrd));
    SplitEqual(head, TableEntry(CMDLINE_GUID, h.cmdline), head, TableEntry(CMDLINE_GUID, h'.cmdline));
    EntryInjective(KERNEL_GUID, h.kernel, h'.kernel);
    EntryInjective(INITRD_GUID, h.initrd, h'.initrd);
    EntryInjective(CMDLINE_GUID, h.cmdline, h'.cmdline);
  }

  /** Whether the page at an offset determines all three hashes. */
  ghost predicate Binds(offset: nat) {
    forall h, h' :: HashPage(h, offset) == HashPage(h', offset) ==> h == h'
  }

  /** The page determines the hashes if and only if the whole table fits on it; `construct_page`
      cuts a table that does not fit without reporting it. */
  lemma PageBindsHashes(offset: nat)
    ensures Binds(offset) <==> offset + TABLE_SIZE <= PAGE
  {
    if offset + TABLE_SIZE <= PAGE {
      forall h, h' | HashPage(h, offset) == HashPage(h', offset) ensures h == h' {
        TableOnPage(h, h', offset, TABLE_SIZE);
        TableInjective(h, h');
      }
    } else {
      CutTable(offset);
    }
  }

  /** Past that offset two kernels whose hashes differ in the last byte share a page. */
  lemma CutTable(offset: nat)
    requires offset + TABLE_SIZE > PAGE
    ensures !Binds(offset)
  {
    var h := SevHashes(Zeros(32), Zeros(32), Zeros(32));
    var h' := SevHashes(Zeros(31) + [1], Zeros(32), Zeros(32));
    assert h.kernel[31] != h'.kernel[31];
    forall k | 0 <= k < PAGE ensures HashPage(h, offset)[k] == HashPage(h', offset)[k] {
      assert forall j :: 0 <= j < TABLE_SIZE - 1 ==> ConstructTable(h)[j] == ConstructTable(h')[j];
    }
    assert HashPage(h, offset) == HashPage(h', offset);
  }
}

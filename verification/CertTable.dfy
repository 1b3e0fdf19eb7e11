/** The certificate table exchanged with the kernel: an array of (GUID, offset, length)
    entries ending in an all-zero entry, followed by the certificates. */
module CertTable {
  import opened ByteStrings
  import opened Outcomes

  const NIL: Guid := [0, 0, 0, 0, 0, 0, 0, 0, 0, 0, 0, 0, 0, 0, 0, 0]
  const ARK_GUID: Guid :=
    [0xc0, 0xb4, 0x06, 0xa4, 0xa8, 0x03, 0x49, 0x52, 0x97, 0x43, 0x3f, 0xb6, 0x01, 0x4c, 0xd0, 0xae]
  const ASK_GUID: Guid :=
    [0x4a, 0xb7, 0xb3, 0x79, 0xbb, 0xac, 0x4f, 0xe4, 0xa0, 0x2f, 0x05, 0xae, 0xf3, 0x27, 0xc7, 0x82]
  const VCEK_GUID: Guid :=
    [0x63, 0xda, 0x75, 0x8d, 0xe6, 0x64, 0x45, 0x64, 0xad, 0xc5, 0xf4, 0xb9, 0x3b, 0xe8, 0xac, 0xcd]
  const VLEK_GUID: Guid :=
    [0xa8, 0x07, 0x4b, 0xc2, 0xa2, 0x5a, 0x48, 0x3e, 0xaa, 0xe6, 0x39, 0xc0, 0x45, 0xa0, 0xb8, 0xa1]
  const CRL_GUID: Guid :=
    [0x92, 0xf8, 0x1b, 0xc3, 0x58, 0x11, 0x4d, 0x3d, 0x97, 0xff, 0xd1, 0x9f, 0x88, 0xdc, 0x67, 0xea]

  datatype CertType = Empty | ARK | ASK | VCEK | VLEK | CRL | OTHER(guid: Guid) {
    function Guid(): Guid {
      match this
      case Empty => NIL
      case ARK => ARK_GUID
      case ASK => ASK_GUID
      case VCEK => VCEK_GUID
      case VLEK => VLEK_GUID
      case CRL => CRL_GUID
      case OTHER(guid) => guid
    }
  }

  function TypeOf(guid: Guid): CertType {
    if guid == NIL then Empty
    else if guid == ARK_GUID then ARK
    else if guid == ASK_GUID then ASK
    else if guid == VCEK_GUID then VCEK
    else if guid == VLEK_GUID then VLEK
    else if guid == CRL_GUID then CRL
    else OTHER(guid)
  }

  /** The GUIDs of the named types are distinct, so only an `OTHER` that hides a named type
      fails to survive its GUID. */
  lemma GuidRoundTrip(kind: CertType, guid: Guid)
    ensures TypeOf(guid).Guid() == guid
    ensures TypeOf(kind.Guid()) == kind <==> !(kind.OTHER? && !TypeOf(kind.guid).OTHER?)
  {
    assert NIL[0] == 0 && ARK_GUID[0] == 0xc0 && ASK_GUID[0] == 0x4a;
    assert VCEK_GUID[0] == 0x63 && VLEK_GUID[0] == 0xa8 && CRL_GUID[0] == 0x92;
  }

  /** The GUIDs as printed; the table keeps them in printed order. */
  lemma PrintedTypes()
    ensures TypeOf(Zeros(16)) == Empty
    ensures TypeOf([0xc0, 0xb4, 0x06, 0xa4, 0xa8, 0x03, 0x49, 0x52,
                   0x97, 0x43, 0x3f, 0xb6, 0x01, 0x4c, 0xd0, 0xae]) == ARK
    ensures TypeOf([0x4a, 0xb7, 0xb3, 0x79, 0xbb, 0xac, 0x4f, 0xe4,
                   0xa0, 0x2f, 0x05, 0xae, 0xf3, 0x27, 0xc7, 0x82]) == ASK
    ensures TypeOf([0x63, 0xda, 0x75, 0x8d, 0xe6, 0x64, 0x45, 0x64,
                   0xad, 0xc5, 0xf4, 0xb9, 0x3b, 0xe8, 0xac, 0xcd]) == VCEK
    ensures TypeOf([0xa8, 0x07, 0x4b, 0xc2, 0xa2, 0x5a, 0x48, 0x3e,
                   0xaa, 0xe6, 0x39, 0xc0, 0x45, 0xa0, 0xb8, 0xa1]) == VLEK
    ensures TypeOf([0x92, 0xf8, 0x1b, 0xc3, 0x58, 0x11, 0x4d, 0x3d,
                   0x97, 0xff, 0xd1, 0x9f, 0x88, 0xdc, 0x67, 0xea]) == CRL
    ensures forall guid: Guid ::
              TypeOf(guid).OTHER? <==> guid !in {NIL, ARK_GUID, ASK_GUID, VCEK_GUID, VLEK_GUID, CRL_GUID}
  {
    assert Zeros(16) == NIL;
    assert NIL[0] == 0 && ARK_GUID[0] == 0xc0 && ASK_GUID[0] == 0x4a;
    assert VCEK_GUID[0] == 0x63 && VLEK_GUID[0] == 0xa8 && CRL_GUID[0] == 0x92;
  }

  datatype CertEntry = CertEntry(kind: CertType, data: Bytes)

  // ---------- encoding ----------

  const ROW := 24

  /** The certificates of the first `n` entries. */
  function Contents(t: seq<CertEntry>, n: nat): Bytes
    requires n <= |t|
  {
    if n == 0 then [] else Contents(t, n - 1) + t[n - 1].data
  }

  function Row(guid: Guid, offset: nat, len: nat): (s: Bytes)
    ensures |s| == ROW
  {
    guid + LeBytes(offset, 4) + LeBytes(len, 4)
  }

  /** The rows of the first `n` entries, whose certificates are stored one after another from
      `base`. */
  function Rows(t: seq<CertEntry>, base: nat, n: nat): (s: Bytes)
    requires n <= |t|
    ensures |s| == ROW * n
  {
    if n == 0 then []
    else Rows(t, base, n - 1) + Row(t[n - 1].kind.Guid(), base + |Contents(t, n - 1)|, |t[n - 1].data|)
  }

  /** Where the first certificate is stored. */
  function Base(t: seq<CertEntry>): nat { ROW * |t| + ROW }

  function Encode(t: seq<CertEntry>): Bytes {
    Rows(t, Base(t), |t|) + Zeros(ROW) + Contents(t, |t|)
  }

  /** No offset or length overflows its 32-bit field. */
  predicate Fits(t: seq<CertEntry>) {
    Base(t) + |Contents(t, |t|)| < 0x1_0000_0000
  }

  lemma {:induction false} ContentsGrow(t: seq<CertEntry>, n: nat, i: nat)
    requires i < n <= |t|
    ensures |Contents(t, i)| + |t[i].data| <= |Contents(t, n)|
  {
    if i < n - 1 { ContentsGrow(t, n - 1, i); }
  }

  lemma EncodeStep(t: seq<CertEntry>, i: nat)
    requires i < |t|
    ensures Contents(t, i + 1) == Contents(t, i) + t[i].data
    ensures Rows(t, Base(t), i + 1) ==
            Rows(t, Base(t), i) + Row(t[i].kind.Guid(), Base(t) + |Contents(t, i)|, |t[i].data|)
    ensures |Contents(t, i)| + |t[i].data| <= |Contents(t, |t|)|
  {
    ContentsGrow(t, |t|, i);
  }

  /** `uapi_to_vec_bytes`. */
  method UapiToVecBytes(table: seq<CertEntry>) returns (bytes: Bytes)
    requires Fits(table)
    ensures bytes == Encode(table)
  {
    bytes := [];
    var offset: U32 := 24 * (|table| + 1);
    var rawCertificates: Bytes := [];
    for i := 0 to |table|
      invariant bytes == Rows(table, Base(table), i)
      invariant rawCertificates == Contents(table, i)
      invariant offset == Base(table) + |rawCertificates|
    {
      var entry := table[i];
      EncodeStep(table, i);
      bytes := bytes + Row(entry.kind.Guid(), offset, |entry.data|);
      rawCertificates := rawCertificates + entry.data;
      offset := offset + |entry.data|;
    }
    bytes := bytes + Zeros(24);
    bytes := bytes + rawCertificates;
  }

  // ---------- parsing ----------

  /** Reading outside the buffer, which the pointer arithmetic of the parser allows. */
  datatype ParseError = OutOfBounds

  /** Bytes read one by one from an address on. */
  function Copy(mem: Bytes, offset: nat, len: nat): (s: Bytes)
    requires offset + len <= |mem|
    ensures |s| == len
  {
    seq(len, k requires 0 <= k < len => mem[offset + k])
  }

  /** The certificate a row points to; an empty one is never read. */
  function CertAt(mem: Bytes, offset: nat, len: nat): Result<Bytes, ParseError> {
    if len == 0 then Success([])
    else if offset + len > |mem| then Failure(OutOfBounds)
    else Success(Copy(mem, offset, len))
  }

  /** The entry a row stands for, or nothing at the end of the table. */
  function EntryAt(mem: Bytes, at: nat): (r: Result<Option<CertEntry>, ParseError>)
    ensures r.Success? ==> at + ROW <= |mem|
  {
    if at + ROW > |mem| then Failure(OutOfBounds)
    else if GuidAt(mem, at) == NIL then Success(None)
    else
      var data :- CertAt(mem, ReadU32(mem, at + 16), ReadU32(mem, at + 20));
      Success(Some(CertEntry(TypeOf(GuidAt(mem, at)), data)))
  }

  function ParseFrom(mem: Bytes, at: nat): Result<seq<CertEntry>, ParseError>
    decreases |mem| - at
  {
    var e :- EntryAt(mem, at);
    if e.None? then Success([])
    else
      var rest :- ParseFrom(mem, at + ROW);
      Success([e.value] + rest)
  }

  /** The inner loop of the parser: one certificate, byte by byte. */
  method ReadCert(mem: Bytes, offset: nat, len: nat) returns (r: Result<Bytes, ParseError>)
    ensures r == CertAt(mem, offset, len)
  {
    var certBytes: Bytes := [];
    var certAddr := offset;
    var certEnd := certAddr + len;
    while certAddr != certEnd
      invariant offset <= certAddr <= certEnd
      invariant certAddr == offset || certAddr <= |mem|
      invariant certBytes == if certAddr == offset then [] else Copy(mem, offset, certAddr - offset)
      decreases certEnd - certAddr
    {
      if certAddr >= |mem| { return Failure(OutOfBounds); }
      assert Copy(mem, offset, certAddr + 1 - offset) == Copy(mem, offset, certAddr - offset) + [mem[certAddr]];
      certBytes := certBytes + [mem[certAddr]];
      certAddr := certAddr + 1;
    }
    r := Success(certBytes);
  }

  function Prepend(found: seq<CertEntry>, r: Result<seq<CertEntry>, ParseError>): Result<seq<CertEntry>, ParseError> {
    if r.Failure? then r else Success(found + r.value)
  }

  lemma PrependStep(found: seq<CertEntry>, e: CertEntry, r: Result<seq<CertEntry>, ParseError>)
    ensures Prepend(found, Prepend([e], r)) == Prepend(found + [e], r)
  {
    if r.Success? { Assoc(found, [e], r.value); }
  }

  /** `parse_table`, with the buffer the pointer points into. */
  method ParseTable(mem: Bytes) returns (r: Result<seq<CertEntry>, ParseError>)
    ensures r == ParseFrom(mem, 0)
  {
    var retval: seq<CertEntry> := [];
    var data := 0;
    assert Prepend([], ParseFrom(mem, 0)) == ParseFrom(mem, 0) by {
      if ParseFrom(mem, 0).Success? { assert [] + ParseFrom(mem, 0).value == ParseFrom(mem, 0).value; }
    }
    while true
      invariant ParseFrom(mem, 0) == Prepend(retval, ParseFrom(mem, data))
      decreases |mem| - data
    {
      if data + 24 > |mem| { return Failure(OutOfBounds); }
      var guid := GuidAt(mem, data);
      if guid == NIL {
        assert retval + [] == retval;
        break;
      }
      var certBytes := ReadCert(mem, ReadU32(mem, data + 16), ReadU32(mem, data + 20));
      if certBytes.Failure? { return Failure(certBytes.error); }
      ParseTurn(mem, data, Some(CertEntry(TypeOf(guid), certBytes.value)));
      PrependStep(retval, CertEntry(TypeOf(guid), certBytes.value), ParseFrom(mem, data + 24));
      retval := retval + [CertEntry(TypeOf(guid), certBytes.value)];
      data := data + 24;
    }
    r := Success(retval);
  }

  // ---------- the round trip ----------

  predicate CanonicalEntry(e: CertEntry) {
    e.kind.Guid() != NIL && TypeOf(e.kind.Guid()) == e.kind
  }

  /** What an entry looks like after the trip: under its named type, or the end of the table. */
  function Normal(e: CertEntry): Option<CertEntry> {
    if e.kind.Guid() == NIL then None else Some(CertEntry(TypeOf(e.kind.Guid()), e.data))
  }

  lemma NormalEntry(e: CertEntry)
    ensures Normal(e) == Some(e) <==> CanonicalEntry(e)
    ensures Normal(e).Some? ==> CanonicalEntry(Normal(e).value)
  {
    GuidRoundTrip(e.kind, e.kind.Guid());
  }

  /** What a table looks like after the trip: cut at the first nil GUID, with every GUID
      under its named type. */
  function NormalForm(t: seq<CertEntry>): seq<CertEntry> {
    if t == [] || Normal(t[0]).None? then [] else [Normal(t[0]).value] + NormalForm(t[1..])
  }

  predicate Canonical(t: seq<CertEntry>) {
    forall i :: 0 <= i < |t| ==> CanonicalEntry(t[i])
  }

  lemma {:induction false} NormalIffCanonical(t: seq<CertEntry>)
    ensures NormalForm(t) == t <==> Canonical(t)
    ensures Canonical(NormalForm(t))
  {
    if t != [] {
      var rest := t[1..];
      NormalIffCanonical(rest);
      NormalEntry(t[0]);
      assert t == [t[0]] + rest;
      assert Canonical(t) <==> CanonicalEntry(t[0]) && Canonical(rest);
      if Normal(t[0]).Some? {
        assert NormalForm(t)[1..] == NormalForm(rest);
      }
    }
  }

  // ---------- where the parts of an encoded table lie ----------

  /** The bytes `s` are in memory at an address. */
  ghost predicate Holds(mem: Bytes, at: nat, s: Bytes) {
    at + |s| <= |mem| && forall k :: 0 <= k < |s| ==> mem[at + k] == s[k]
  }

  lemma HoldsSplit(mem: Bytes, at: nat, a: Bytes, b: Bytes)
    requires Holds(mem, at, a + b)
    ensures Holds(mem, at, a) && Holds(mem, at + |a|, b)
  {
    forall k | 0 <= k < |a| ensures mem[at + k] == a[k] { assert (a + b)[k] == a[k]; }
    forall k | 0 <= k < |b| ensures mem[at + |a| + k] == b[k] { assert (a + b)[|a| + k] == b[k]; }
  }

  lemma HoldsSlice(mem: Bytes, at: nat, s: Bytes)
    requires Holds(mem, at, s)
    ensures mem[at..at + |s|] == s
  {
  }

  lemma {:induction false} RowHeld(mem: Bytes, t: seq<CertEntry>, base: nat, n: nat, i: nat)
    requires i < n <= |t| && Holds(mem, 0, Rows(t, base, n))
    ensures Holds(mem, ROW * i, Row(t[i].kind.Guid(), base + |Contents(t, i)|, |t[i].data|))
  {
    HoldsSplit(mem, 0, Rows(t, base, n - 1), Row(t[n - 1].kind.Guid(), base + |Contents(t, n - 1)|, |t[n - 1].data|));
    if i < n - 1 { RowHeld(mem, t, base, n - 1, i); }
  }

  lemma {:induction false} DataHeld(mem: Bytes, t: seq<CertEntry>, at: nat, n: nat, i: nat)
    requires i < n <= |t| && Holds(mem, at, Contents(t, n))
    ensures Holds(mem, at + |Contents(t, i)|, t[i].data)
  {
    HoldsSplit(mem, at, Contents(t, n - 1), t[n - 1].data);
    if i < n - 1 { DataHeld(mem, t, at, n - 1, i); }
  }

  lemma ThreeParts(mem: Bytes, a: Bytes, b: Bytes, c: Bytes)
    requires Holds(mem, 0, a + b + c)
    ensures Holds(mem, 0, a) && Holds(mem, |a|, b) && Holds(mem, |a| + |b|, c)
  {
    HoldsSplit(mem, 0, a + b, c);
    HoldsSplit(mem, 0, a, b);
  }

  // ---------- reading them back ----------

  lemma WordHeld(mem: Bytes, at: nat, w: nat)
    requires Holds(mem, at, LeBytes(w, 4)) && w < 0x1_0000_0000
    ensures ReadU32(mem, at) == w
  {
    HoldsSlice(mem, at, LeBytes(w, 4));
    Powers();
    LeValueOfBytes(w, 4);
  }

  lemma RowFields(mem: Bytes, at: nat, guid: Guid, offset: nat, len: nat)
    requires Holds(mem, at, Row(guid, offset, len)) && offset < 0x1_0000_0000 && len < 0x1_0000_0000
    ensures GuidAt(mem, at) == guid && ReadU32(mem, at + 16) == offset && ReadU32(mem, at + 20) == len
  {
    HoldsSplit(mem, at, guid + LeBytes(offset, 4), LeBytes(len, 4));
    HoldsSplit(mem, at, guid, LeBytes(offset, 4));
    HoldsSlice(mem, at, guid);
    WordHeld(mem, at + 16, offset);
    WordHeld(mem, at + 20, len);
  }

  /** The parser's view of a row that is in memory with its certificate. */
  lemma EntryHeld(mem: Bytes, at: nat, offset: nat, e: CertEntry)
    requires Holds(mem, at, Row(e.kind.Guid(), offset, |e.data|)) && Holds(mem, offset, e.data)
    requires offset < 0x1_0000_0000 && |e.data| < 0x1_0000_0000
    ensures EntryAt(mem, at) == Success(Normal(e))
  {
    RowFields(mem, at, e.kind.Guid(), offset, |e.data|);
    assert Copy(mem, offset, |e.data|) == e.data;
  }

  lemma EndHeld(mem: Bytes, at: nat)
    requires Holds(mem, at, Zeros(ROW))
    ensures EntryAt(mem, at) == Success(None)
  {
    HoldsSlice(mem, at, Zeros(ROW));
    SliceOfSlice(mem, at, at + ROW, 0, 16);
    assert Zeros(ROW)[0..16] == NIL;
  }

  /** What row `i` should read as. */
  function Expected(t: seq<CertEntry>, i: nat): Option<CertEntry>
    requires i <= |t|
  {
    if i == |t| then None else Normal(t[i])
  }

  /** The entry that row `i` stands for. */
  function RowAt(mem: Bytes, i: nat): Result<Option<CertEntry>, ParseError> {
    EntryAt(mem, ROW * i)
  }

  lemma EncodedReads(mem: Bytes, t: seq<CertEntry>, i: nat)
    requires Fits(t) && i <= |t| && Holds(mem, 0, Encode(t))
    ensures RowAt(mem, i) == Success(Expected(t, i))
  {
    ThreeParts(mem, Rows(t, Base(t), |t|), Zeros(ROW), Contents(t, |t|));
    if i == |t| {
      EndHeld(mem, ROW * i);
    } else {
      RowHeld(mem, t, Base(t), |t|, i);
      DataHeld(mem, t, Base(t), |t|, i);
      ContentsGrow(t, |t|, i);
      EntryHeld(mem, ROW * i, Base(t) + |Contents(t, i)|, t[i]);
    }
  }

  /** What the parser makes of a row, given what it makes of the rows behind it. */
  function Turn(e: Option<CertEntry>, rest: Result<seq<CertEntry>, ParseError>): Result<seq<CertEntry>, ParseError> {
    if e.None? then Success([]) else Prepend([e.value], rest)
  }

  lemma ParseTurn(mem: Bytes, at: nat, e: Option<CertEntry>)
    requires EntryAt(mem, at) == Success(e)
    ensures ParseFrom(mem, at) == Turn(e, ParseFrom(mem, at + ROW))
  {
  }

  lemma NormalFormTurn(t: seq<CertEntry>, i: nat)
    requires i < |t|
    ensures NormalForm(t[i..]) ==
            if Normal(t[i]).None? then [] else [Normal(t[i]).value] + NormalForm(t[i + 1..])
  {
    assert t[i..][0] == t[i] && t[i..][1..] == t[i + 1..];
  }

  /** Whatever proceeds row by row arrives at the normal form. */
  lemma {:induction false} Proceeds(parse: nat -> Result<seq<CertEntry>, ParseError>, t: seq<CertEntry>, i: nat)
    requires i <= |t|
    requires forall k: nat :: k <= |t| ==> parse(k) == Turn(Expected(t, k), parse(k + 1))
    ensures parse(i) == Success(NormalForm(t[i..]))
    decreases |t| - i
  {
    assert parse(i) == Turn(Expected(t, i), parse(i + 1));
    if i < |t| {
      Proceeds(parse, t, i + 1);
      NormalFormTurn(t, i);
    }
  }

  lemma ParseAll(mem: Bytes, t: seq<CertEntry>)
    requires forall k: nat :: k <= |t| ==> RowAt(mem, k) == Success(Expected(t, k))
    ensures ParseFrom(mem, 0) == Success(NormalForm(t))
  {
    var parse := (k: nat) => ParseFrom(mem, ROW * k);
    forall k: nat | k <= |t| ensures parse(k) == Turn(Expected(t, k), parse(k + 1)) {
      assert RowAt(mem, k) == Success(Expected(t, k));
      ParseTurn(mem, ROW * k, Expected(t, k));
    }
    Proceeds(parse, t, 0);
    assert t[0..] == t;
  }

  /** Parsing memory that starts with an encoded table gives its normal form, so exactly the
      canonical tables come back unchanged. */
  lemma RoundTrip(t: seq<CertEntry>, mem: Bytes)
    requires Fits(t) && Holds(mem, 0, Encode(t))
    ensures ParseFrom(mem, 0) == Success(NormalForm(t))
    ensures ParseFrom(mem, 0) == Success(t) <==> Canonical(t)
  {
    forall k: nat | k <= |t| ensures RowAt(mem, k) == Success(Expected(t, k)) {
      EncodedReads(mem, t, k);
    }
    ParseAll(mem, t);
    NormalIffCanonical(t);
  }

  /** Whatever the parser returns is canonical, so it survives being written and read again. */
  lemma {:induction false} ParsedIsCanonical(mem: Bytes, at: nat)
    requires ParseFrom(mem, at).Success?
    ensures Canonical(ParseFrom(mem, at).value)
    decreases |mem| - at
  {
    if EntryAt(mem, at).value.Some? {
      ParsedIsCanonical(mem, at + ROW);
      GuidRoundTrip(Empty, GuidAt(mem, at));
      var t := ParseFrom(mem, at).value;
      assert t[1..] == ParseFrom(mem, at + ROW).value;
      forall i | 0 <= i < |t| ensures CanonicalEntry(t[i]) {
        assert i > 0 ==> t[i] == t[1..][i - 1];
      }
    }
  }

  lemma Rewritten(mem: Bytes, mem': Bytes)
    requires ParseFrom(mem, 0).Success? && Fits(ParseFrom(mem, 0).value)
    requires Holds(mem', 0, Encode(ParseFrom(mem, 0).value))
    ensures ParseFrom(mem', 0) == ParseFrom(mem, 0)
  {
    ParsedIsCanonical(mem, 0);
    RoundTrip(ParseFrom(mem, 0).value, mem');
  }

  // ---------- the table by its bytes ----------

  /** Where certificate `i` goes: behind a row for each entry and one more, and the
      certificates before it. */
  function Offset(t: seq<CertEntry>, i: nat): nat
    requires i <= |t|
  {
    if i == 0 then 24 * |t| + 24 else Offset(t, i - 1) + |t[i - 1].data|
  }

  lemma {:induction false} OffsetIs(t: seq<CertEntry>, i: nat)
    requires i <= |t|
    ensures Offset(t, i) == Base(t) + |Contents(t, i)|
  {
    if i > 0 { OffsetIs(t, i - 1); }
  }

  /** A row at an offset: GUID, offset and length of the certificate. */
  predicate RowIs(s: Bytes, at: nat, guid: Guid, offset: nat, len: nat) {
    && at + 24 <= |s|
    && s[at..at + 16] == guid && LeValue(s[at + 16..at + 20]) == offset && LeValue(s[at + 20..at + 24]) == len
  }

  /** A row of the buffer and what it points to. */
  predicate WrittenAt(s: Bytes, at: nat, guid: Guid, offset: nat, data: Bytes) {
    RowIs(s, at, guid, offset, |data|) && offset + |data| <= |s| && s[offset..offset + |data|] == data
  }

  lemma RowParts(guid: Guid, offset: U32, len: U32)
    ensures RowIs(Row(guid, offset, len), 0, guid, offset, len)
  {
    var o, l := LeBytes(offset, 4), LeBytes(len, 4);
    Powers();
    LeValueOfBytes(offset, 4);
    LeValueOfBytes(len, 4);
    RowCut(guid, o, l);
  }

  lemma RowCut(guid: Guid, o: Bytes, l: Bytes)
    requires |o| == 4 && |l| == 4
    ensures var row := guid + o + l; row[0..16] == guid && row[16..20] == o && row[20..24] == l
  {
  }

  lemma RowBehind(front: Bytes, row: Bytes, guid: Guid, offset: nat, len: nat)
    requires |row| == 24 && RowIs(row, 0, guid, offset, len)
    ensures RowIs(front + row, |front|, guid, offset, len)
  {
    SuffixSlice(front, row, |front|, |front| + 16);
    SuffixSlice(front, row, |front| + 16, |front| + 20);
    SuffixSlice(front, row, |front| + 20, |front| + 24);
  }

  lemma RowMoves(s: Bytes, more: Bytes, at: nat, guid: Guid, offset: nat, len: nat)
    requires RowIs(s, at, guid, offset, len)
    ensures RowIs(s + more, at, guid, offset, len)
  {
    PrefixSlice(s, more, at, at + 16);
    PrefixSlice(s, more, at + 16, at + 20);
    PrefixSlice(s, more, at + 20, at + 24);
  }

  lemma {:induction false} RowSlice(t: seq<CertEntry>, base: nat, n: nat, i: nat)
    requires i < n <= |t| && base + |Contents(t, i)| < 0x1_0000_0000 && |t[i].data| < 0x1_0000_0000
    ensures RowIs(Rows(t, base, n), 24 * i, t[i].kind.Guid(), base + |Contents(t, i)|, |t[i].data|)
  {
    var front, last := Rows(t, base, n - 1), t[n - 1];
    if i < n - 1 {
      RowSlice(t, base, n - 1, i);
      RowMoves(front, Row(last.kind.Guid(), base + |Contents(t, n - 1)|, |last.data|), 24 * i,
               t[i].kind.Guid(), base + |Contents(t, i)|, |t[i].data|);
    } else {
      var row := Row(last.kind.Guid(), base + |Contents(t, n - 1)|, |last.data|);
      RowParts(last.kind.Guid(), base + |Contents(t, n - 1)|, |last.data|);
      RowBehind(front, row, last.kind.Guid(), base + |Contents(t, n - 1)|, |last.data|);
    }
  }

  lemma {:induction false} DataSlice(t: seq<CertEntry>, n: nat, i: nat)
    requires i < n <= |t|
    ensures |Contents(t, i)| + |t[i].data| <= |Contents(t, n)|
    ensures Contents(t, n)[|Contents(t, i)|..|Contents(t, i)| + |t[i].data|] == t[i].data
  {
    if i < n - 1 { DataSlice(t, n - 1, i); }
  }

  lemma Written(s: Bytes, rows: Bytes, contents: Bytes, at: nat, guid: Guid, offset: nat, data: Bytes)
    requires s == rows + Zeros(24) + contents && RowIs(rows, at, guid, offset, |data|)
    requires var from := offset - |rows| - 24;
             0 <= from && from + |data| <= |contents| && contents[from..from + |data|] == data
    ensures WrittenAt(s, at, guid, offset, data)
  {
    Assoc(rows, Zeros(24), contents);
    RowMoves(rows, Zeros(24) + contents, at, guid, offset, |data|);
    SuffixSlice(rows + Zeros(24), contents, offset, offset + |data|);
  }

  /** The written buffer: its length, every row with its certificate, and the nil row. */
  lemma WrittenBytes(t: seq<CertEntry>)
    requires Fits(t)
    ensures |Encode(t)| == Offset(t, |t|)
    ensures forall i :: 0 <= i < |t| ==> WrittenAt(Encode(t), 24 * i, t[i].kind.Guid(), Offset(t, i), t[i].data)
    ensures Encode(t)[24 * |t|..24 * |t| + 24] == Zeros(24)
  {
    OffsetIs(t, |t|);
    SliceMiddle(Rows(t, Base(t), |t|), Zeros(24), Contents(t, |t|));
    forall i | 0 <= i < |t| ensures WrittenAt(Encode(t), 24 * i, t[i].kind.Guid(), Offset(t, i), t[i].data) {
      OffsetIs(t, i);
      DataSlice(t, |t|, i);
      RowSlice(t, Base(t), |t|, i);
      Written(Encode(t), Rows(t, Base(t), |t|), Contents(t, |t|), 24 * i, t[i].kind.Guid(), Offset(t, i), t[i].data);
    }
  }

  /** A row that reads as an entry: a GUID that is not nil, and the bytes between offset and
      offset plus length unless there are none. */
  predicate EntryRead(mem: Bytes, at: nat, e: CertEntry) {
    && at + 24 <= |mem| && mem[at..at + 16] != NIL && e.kind == TypeOf(mem[at..at + 16])
    && var offset, len := LeValue(mem[at + 16..at + 20]), LeValue(mem[at + 20..at + 24]);
       if len == 0 then e.data == [] else offset + len <= |mem| && e.data == mem[offset..offset + len]
  }

  predicate EndRead(mem: Bytes, at: nat) {
    at + 24 <= |mem| && mem[at..at + 16] == NIL
  }

  lemma EntryExact(mem: Bytes, at: nat)
    ensures forall e :: EntryAt(mem, at) == Success(Some(e)) <==> EntryRead(mem, at, e)
    ensures EntryAt(mem, at) == Success(None) <==> EndRead(mem, at)
  {
    if at + 24 <= |mem| {
      var offset, len := ReadU32(mem, at + 16), ReadU32(mem, at + 20);
      if offset + len <= |mem| { assert Copy(mem, offset, len) == mem[offset..offset + len]; }
    }
  }

  ghost predicate AllRead(mem: Bytes, at: nat, t: seq<CertEntry>)
    decreases |t|
  {
    if t == [] then EndRead(mem, at) else EntryRead(mem, at, t[0]) && AllRead(mem, at + 24, t[1..])
  }

  /** Reading all is reading each entry in its row, and the nil row behind the last. */
  lemma {:induction false} EachRead(mem: Bytes, at: nat, t: seq<CertEntry>, i: nat)
    requires AllRead(mem, at, t) && i <= |t|
    ensures if i < |t| then EntryRead(mem, at + 24 * i, t[i]) else EndRead(mem, at + 24 * i)
    decreases |t|
  {
    if i > 0 {
      EachRead(mem, at + 24, t[1..], i - 1);
      assert at + 24 + 24 * (i - 1) == at + 24 * i;
    }
  }

  /** A table is read exactly when its rows, from the first on, read as its entries and the
      next row is nil; there is no other way to succeed. */
  lemma {:induction false} ParseExact(mem: Bytes, at: nat, t: seq<CertEntry>)
    ensures ParseFrom(mem, at) == Success(t) <==> AllRead(mem, at, t)
    decreases |mem| - at
  {
    EntryExact(mem, at);
    if t == [] {
    } else {
      var rest := t[1..];
      assert t == [t[0]] + rest;
      if EntryAt(mem, at).Success? { ParseExact(mem, at + 24, rest); }
    }
  }

  // ---------- the order on types ----------

  datatype Ordering = Less | Equal | Greater {
    function Reverse(): Ordering {
      match this
      case Less => Greater
      case Equal => Equal
      case Greater => Less
    }
  }

  /** Byte-wise comparison of GUIDs. */
  function Lexicographic(a: Bytes, b: Bytes): Ordering
    requires |a| == |b|
  {
    if a == [] then Equal
    else if a[0] < b[0] then Less
    else if a[0] > b[0] then Greater
    else Lexicographic(a[1..], b[1..])
  }

  /** `CertType::cmp`, in the order of its match arms. */
  function Cmp(a: CertType, b: CertType): Ordering {
    match (a, b)
    case (OTHER(left), OTHER(right)) => Lexicographic(left, right)
    case (_, _) =>
      if a == b then Equal
      else if a.Empty? then Greater
      else if b.Empty? then Less
      else if a.OTHER? then Greater
      else if b.OTHER? then Less
      else if a.CRL? then Greater
      else if b.CRL? then Less
      else if a.ASK? then Greater
      else if b.ASK? then Less
      else if a.VLEK? then Greater
      else if b.VLEK? then Less
      else if a.VCEK? then Greater
      else Less
  }

  /** ARK, VCEK, VLEK, ASK, CRL, anything else, and the empty type last. */
  function Rank(t: CertType): nat {
    match t
    case ARK => 0
    case VCEK => 1
    case VLEK => 2
    case ASK => 3
    case CRL => 4
    case OTHER(_) => 5
    case Empty => 6
  }

  /** The first byte in which two GUIDs differ decides. */
  predicate Precedes(a: Bytes, b: Bytes)
    requires |a| == |b|
  {
    exists k :: 0 <= k < |a| && a[k] < b[k] && a[..k] == b[..k]
  }

  lemma {:induction false} LexicographicExact(a: Bytes, b: Bytes)
    requires |a| == |b|
    ensures Lexicographic(a, b) == Less <==> Precedes(a, b)
  {
    if a != [] {
      var a', b' := a[1..], b[1..];
      LexicographicExact(a', b');
      if a[0] == b[0] {
        if Precedes(a', b') {
          var k :| 0 <= k < |a'| && a'[k] < b'[k] && a'[..k] == b'[..k];
          assert a[..k + 1] == [a[0]] + a'[..k] && b[..k + 1] == [b[0]] + b'[..k];
          assert a[k + 1] < b[k + 1];
        }
        if Precedes(a, b) {
          var k :| 0 <= k < |a| && a[k] < b[k] && a[..k] == b[..k];
          assert a'[..k - 1] == a[..k][1..] && b'[..k - 1] == b[..k][1..];
          assert a'[k - 1] < b'[k - 1];
        }
      } else if a[0] < b[0] {
        assert a[..0] == b[..0];
      }
    }
  }

  /** The comparison goes by rank, and among other types by GUID. */
  lemma OrderExact(a: CertType, b: CertType)
    ensures Cmp(a, b) == Less <==>
              if a.OTHER? && b.OTHER? then Precedes(a.guid, b.guid) else Rank(a) < Rank(b)
  {
    if a.OTHER? && b.OTHER? { LexicographicExact(a.guid, b.guid); }
  }

  lemma {:induction false} LexicographicTotal(a: Bytes, b: Bytes, c: Bytes)
    requires |a| == |b| == |c|
    ensures Lexicographic(a, b) == Equal <==> a == b
    ensures Lexicographic(b, a) == Lexicographic(a, b).Reverse()
    ensures Lexicographic(a, b) == Less && Lexicographic(b, c) == Less ==> Lexicographic(a, c) == Less
  {
    if a != [] {
      LexicographicTotal(a[1..], b[1..], c[1..]);
      assert a == [a[0]] + a[1..] && b == [b[0]] + b[1..];
    }
  }

  /** The comparison is a total order that agrees with equality. */
  lemma TotalOrder(a: CertType, b: CertType, c: CertType)
    ensures Cmp(a, b) == Equal <==> a == b
    ensures Cmp(b, a) == Cmp(a, b).Reverse()
    ensures Cmp(a, b) == Less && Cmp(b, c) == Less ==> Cmp(a, c) == Less
  {
    if a.OTHER? && b.OTHER? {
      LexicographicTotal(a.guid, b.guid, if c.OTHER? then c.guid else NIL);
    }
  }
}

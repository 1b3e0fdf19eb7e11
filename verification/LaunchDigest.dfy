/** The expected SNP launch digest of a guest, computed from its firmware image, kernel and
    virtual CPUs, as a fold over a list of pages. */
module LaunchDigest {
  import opened ByteStrings
  import opened Outcomes
  import opened GuestContext
  import opened Firmware
  import opened KernelHashTable
  import SaveAreas

  datatype MeasurementError =
    | ContextFault(gctx: GctxError)
    | FirmwareFault(ovmf: OvmfError)
    | HashPageFault(hashes: SevHashError)
    | MissingKernelHashes
    | BadHex
    | BadDigestLength
    | PageSizeAssertion

  type Vmm = SaveAreas.Vmm

  function OfContext<T>(r: Result<T, GctxError>): Result<T, MeasurementError> {
    if r.Failure? then Failure(ContextFault(r.error)) else Success(r.value)
  }

  function OfImage<T>(r: Result<T, OvmfError>): Result<T, MeasurementError> {
    if r.Failure? then Failure(FirmwareFault(r.error)) else Success(r.value)
  }

  // ---------- the pages of the metadata sections ----------

  /** Where the hash table lies within its page. */
  function HashOffset(image: Image): Result<nat, MeasurementError> {
    var gpa :- OfImage(image.HashTableGpa());
    Success(gpa % PAGE)
  }

  function KernelHashPages(image: Image, hashes: Option<SevHashes>, gpa: U32, size: U32)
      : Result<seq<Page>, MeasurementError>
  {
    match hashes
    case Some(h) =>
      var offset :- HashOffset(image);
      if PAGE != size then Failure(PageSizeAssertion)
      else OfContext(PagesOf(Normal, gpa, Some(HashPage(h, offset)), None))
    case None => OfContext(PagesOf(Zero, gpa, None, Some(size)))
  }

  function CpuidPageOf(s: Section): Page { Page(Cpuid, s.gpa, []) }

  /** The pages of one section when it is reached in metadata order. */
  function SectionPages(image: Image, hashes: Option<SevHashes>, vmm: Vmm, s: Section)
      : Result<seq<Page>, MeasurementError>
  {
    match s.kind
    case SecMemory => OfContext(PagesOf(Zero, s.gpa, None, Some(s.size)))
    case SecretsPage => Success([Page(Secrets, s.gpa, [])])
    case CpuidPage => Success(if vmm.EC2? then [] else [CpuidPageOf(s)])
    case KernelHashes => KernelHashPages(image, hashes, s.gpa, s.size)
  }

  function SectionsPages(image: Image, hashes: Option<SevHashes>, vmm: Vmm, ss: seq<Section>)
      : Result<seq<Page>, MeasurementError>
    decreases |ss|
  {
    if ss == [] then Success([])
    else
      var front :- SectionsPages(image, hashes, vmm, ss[..|ss|-1]);
      var last :- SectionPages(image, hashes, vmm, ss[|ss|-1]);
      Success(front + last)
  }

  /** The CPUID pages that EC2 measures after everything else. */
  function LateCpuid(ss: seq<Section>): seq<Page>
    decreases |ss|
  {
    if ss == [] then []
    else LateCpuid(ss[..|ss|-1]) + (if ss[|ss|-1].kind.CpuidPage? then [CpuidPageOf(ss[|ss|-1])] else [])
  }

  function MetadataPages(image: Image, hashes: Option<SevHashes>, vmm: Vmm)
      : Result<seq<Page>, MeasurementError>
  {
    var each :- SectionsPages(image, hashes, vmm, image.sections);
    if hashes.Some? && !image.HasSection(KernelHashes) then Failure(MissingKernelHashes)
    else Success(each + (if vmm.EC2? then LateCpuid(image.sections) else []))
  }

  // ---------- the same, declaratively ----------

  /** The pages of a section, whatever the hypervisor. */
  function PagesFor(image: Image, hashes: Option<SevHashes>, s: Section): Result<seq<Page>, MeasurementError> {
    SectionPages(image, hashes, SaveAreas.QEMU, s)
  }

  predicate SectionOk(image: Image, hashes: Option<SevHashes>, s: Section) {
    PagesFor(image, hashes, s).Success?
  }

  function Flatten(image: Image, hashes: Option<SevHashes>, ss: seq<Section>): seq<Page>
    requires forall s :: s in ss ==> SectionOk(image, hashes, s)
    decreases |ss|
  {
    if ss == [] then []
    else
      assert SectionOk(image, hashes, ss[|ss|-1]);
      Flatten(image, hashes, ss[..|ss|-1]) + PagesFor(image, hashes, ss[|ss|-1]).value
  }

  function Keep(ss: seq<Section>, cpuid: bool): (r: seq<Section>)
    ensures forall s :: s in r ==> s in ss && s.kind.CpuidPage? == cpuid
    decreases |ss|
  {
    if ss == [] then []
    else
      var front, s := Keep(ss[..|ss|-1], cpuid), ss[|ss|-1];
      if s.kind.CpuidPage? == cpuid then front + [s] else front
  }

  /** The order in which sections are measured: metadata order, except that EC2 measures all
      CPUID sections last. */
  function Schedule(vmm: Vmm, ss: seq<Section>): (r: seq<Section>)
    ensures forall s :: s in r ==> s in ss
  {
    if vmm.EC2? then Keep(ss, false) + Keep(ss, true) else ss
  }

  lemma KeepSnoc(front: seq<Section>, s: Section, cpuid: bool)
    ensures multiset(Keep(front + [s], cpuid)) ==
            multiset(Keep(front, cpuid)) + (if s.kind.CpuidPage? == cpuid then multiset{s} else multiset{})
  {
    assert (front + [s])[..|front|] == front;
  }

  lemma {:induction false} KeepCounts(ss: seq<Section>)
    ensures multiset(Keep(ss, false)) + multiset(Keep(ss, true)) == multiset(ss)
    decreases |ss|
  {
    if ss != [] {
      var front, s := ss[..|ss|-1], ss[|ss|-1];
      assert ss == front + [s];
      KeepCounts(front);
      KeepSnoc(front, s, false);
      KeepSnoc(front, s, true);
    }
  }

  /** No hypervisor leaves a section out or measures one twice. */
  lemma ScheduleIsPermutation(vmm: Vmm, ss: seq<Section>)
    ensures multiset(Schedule(vmm, ss)) == multiset(ss)
  {
    KeepCounts(ss);
  }

  lemma FlattenSnoc(image: Image, hashes: Option<SevHashes>, a: seq<Section>, s: Section)
    requires (forall x :: x in a ==> SectionOk(image, hashes, x)) && SectionOk(image, hashes, s)
    ensures forall x :: x in a + [s] ==> SectionOk(image, hashes, x)
    ensures Flatten(image, hashes, a + [s]) == Flatten(image, hashes, a) + PagesFor(image, hashes, s).value
  {
    assert (a + [s])[..|a|] == a;
  }

  lemma {:induction false} FlattenAppend(image: Image, hashes: Option<SevHashes>, a: seq<Section>, b: seq<Section>)
    requires forall s :: s in a ==> SectionOk(image, hashes, s)
    requires forall s :: s in b ==> SectionOk(image, hashes, s)
    ensures forall s :: s in a + b ==> SectionOk(image, hashes, s)
    ensures Flatten(image, hashes, a + b) == Flatten(image, hashes, a) + Flatten(image, hashes, b)
    decreases |b|
  {
    if b == [] {
      assert a + b == a;
    } else {
      var front, last := b[..|b|-1], b[|b|-1];
      FlattenAppend(image, hashes, a, front);
      assert b == front + [last];
      Assoc(a, front, [last]);
      FlattenSnoc(image, hashes, a + front, last);
      FlattenSnoc(image, hashes, front, last);
      Assoc(Flatten(image, hashes, a), Flatten(image, hashes, front), PagesFor(image, hashes, last).value);
    }
  }

  /** The sections whose pages are measured in metadata order. */
  function InOrder(vmm: Vmm, ss: seq<Section>): (r: seq<Section>)
    ensures forall s :: s in r ==> s in ss
  {
    if vmm.EC2? then Keep(ss, false) else ss
  }

  lemma InOrderStep(image: Image, hashes: Option<SevHashes>, vmm: Vmm, front: seq<Section>, s: Section)
    requires (forall x :: x in front ==> SectionOk(image, hashes, x)) && SectionOk(image, hashes, s)
    ensures SectionPages(image, hashes, vmm, s).Success?
    ensures forall x :: x in InOrder(vmm, front + [s]) ==> SectionOk(image, hashes, x)
    ensures Flatten(image, hashes, InOrder(vmm, front + [s])) ==
            Flatten(image, hashes, InOrder(vmm, front)) + SectionPages(image, hashes, vmm, s).value
  {
    assert (front + [s])[..|front|] == front;
    if vmm.EC2? && s.kind.CpuidPage? {
      assert InOrder(vmm, front + [s]) == InOrder(vmm, front);
      assert SectionPages(image, hashes, vmm, s).value == [];
    } else {
      assert InOrder(vmm, front + [s]) == InOrder(vmm, front) + [s];
      FlattenSnoc(image, hashes, InOrder(vmm, front), s);
    }
  }

  /** Pages measured in metadata order, with CPUID sections skipped on EC2. */
  lemma {:induction false} SectionsPagesIs(image: Image, hashes: Option<SevHashes>, vmm: Vmm, ss: seq<Section>)
    ensures SectionsPages(image, hashes, vmm, ss).Success? <==> forall s :: s in ss ==> SectionOk(image, hashes, s)
    ensures SectionsPages(image, hashes, vmm, ss).Success? ==>
              SectionsPages(image, hashes, vmm, ss).value == Flatten(image, hashes, InOrder(vmm, ss))
    decreases |ss|
  {
    if ss != [] {
      var front, s := ss[..|ss|-1], ss[|ss|-1];
      assert ss == front + [s];
      SectionsPagesIs(image, hashes, vmm, front);
      assert SectionPages(image, hashes, vmm, s).Success? <==> SectionOk(image, hashes, s);
      if SectionsPages(image, hashes, vmm, ss).Success? {
        InOrderStep(image, hashes, vmm, front, s);
      }
    }
  }

  lemma {:induction false} LateCpuidIs(image: Image, hashes: Option<SevHashes>, ss: seq<Section>)
    ensures forall s :: s in Keep(ss, true) ==> SectionOk(image, hashes, s)
    ensures LateCpuid(ss) == Flatten(image, hashes, Keep(ss, true))
    decreases |ss|
  {
    if ss != [] {
      var front, s := ss[..|ss|-1], ss[|ss|-1];
      LateCpuidIs(image, hashes, front);
      if s.kind.CpuidPage? {
        FlattenSnoc(image, hashes, Keep(front, true), s);
      }
    }
  }

  /** The metadata pages are those of the scheduled sections, in order; they exist exactly
      when every section is well formed and a kernel has a section for its hashes. */
  lemma ScheduleRefined(image: Image, hashes: Option<SevHashes>, vmm: Vmm)
    ensures MetadataPages(image, hashes, vmm).Success? <==>
              && (forall s :: s in image.sections ==> SectionOk(image, hashes, s))
              && (hashes.Some? ==> image.HasSection(KernelHashes))
    ensures MetadataPages(image, hashes, vmm).Success? ==>
              MetadataPages(image, hashes, vmm).value == Flatten(image, hashes, Schedule(vmm, image.sections))
  {
    var ss := image.sections;
    SectionsPagesIs(image, hashes, vmm, ss);
    if MetadataPages(image, hashes, vmm).Success? {
      if vmm.EC2? {
        LateCpuidIs(image, hashes, ss);
        FlattenAppend(image, hashes, Keep(ss, false), Keep(ss, true));
      } else {
        assert Flatten(image, hashes, ss) + [] == Flatten(image, hashes, ss);
      }
    }
  }

  lemma {:induction false} FlattenPermuted(image: Image, hashes: Option<SevHashes>, ss: seq<Section>)
    requires forall s :: s in ss ==> SectionOk(image, hashes, s)
    ensures multiset(Flatten(image, hashes, Keep(ss, false))) + multiset(Flatten(image, hashes, Keep(ss, true))) ==
            multiset(Flatten(image, hashes, ss))
    decreases |ss|
  {
    if ss != [] {
      var front, s := ss[..|ss|-1], ss[|ss|-1];
      assert ss == front + [s];
      FlattenPermuted(image, hashes, front);
      FlattenSnoc(image, hashes, front, s);
      FlattenSnoc(image, hashes, Keep(front, s.kind.CpuidPage?), s);
    }
  }

  /** Every hypervisor type measures the same pages with the same multiplicities, and accepts
      the same images. */
  lemma SamePagesForAll(image: Image, hashes: Option<SevHashes>, v: Vmm, w: Vmm)
    ensures MetadataPages(image, hashes, v).Success? <==> MetadataPages(image, hashes, w).Success?
    ensures MetadataPages(image, hashes, v).Success? ==>
              multiset(MetadataPages(image, hashes, v).value) == multiset(MetadataPages(image, hashes, w).value)
  {
    ScheduleRefined(image, hashes, v);
    ScheduleRefined(image, hashes, w);
    if MetadataPages(image, hashes, v).Success? {
      var ss := image.sections;
      FlattenPermuted(image, hashes, ss);
      FlattenAppend(image, hashes, Keep(ss, false), Keep(ss, true));
    }
  }

  /** Taking the sections of a kind, piece by piece: it keeps all of them, in their order. */
  lemma {:induction false} KeepExact(a: seq<Section>, b: seq<Section>, s: Section, cpuid: bool)
    ensures Keep([s], cpuid) == if (s.kind == CpuidPage) == cpuid then [s] else []
    ensures Keep(a + b, cpuid) == Keep(a, cpuid) + Keep(b, cpuid)
    decreases |b|
  {
    assert [s][..0] == [];
    if b == [] {
      assert a + b == a;
    } else {
      var front, last := b[..|b|-1], b[|b|-1];
      KeepExact(a, front, s, cpuid);
      assert (a + b)[..|a + b| - 1] == a + front;
      Assoc(Keep(a, cpuid), Keep(front, cpuid), [last]);
    }
  }

  /** QEMU and KRUN measure in metadata order; EC2 measures everything but CPUID sections in
      that order and then the CPUID sections, in that order too (see `KeepExact`). */
  lemma ScheduleExact(vmm: Vmm, ss: seq<Section>)
    ensures vmm == SaveAreas.QEMU || vmm == SaveAreas.KRUN ==> Schedule(vmm, ss) == ss
    ensures vmm == SaveAreas.EC2 ==> Schedule(vmm, ss) == Keep(ss, false) + Keep(ss, true)
  {
  }

  // ---------- what each section is measured as ----------

  /** Measuring the page from digest `ld` hashes a structure with these parts. */
  predicate MeasuredAs(sha384: Hash, ld: Digest, p: Page, code: int, gpa: int, contents: Bytes) {
    IsPageInfo(InfoOf(ld, p.Measured(sha384)), ld, contents, code, gpa)
  }

  /** A secrets section is one page of type 5, without contents. */
  lemma SecretsMeasured(sha384: Hash, ld: Digest, image: Image, hashes: Option<SevHashes>, s: Section)
    requires s.kind.SecretsPage?
    ensures var r := PagesFor(image, hashes, s);
            r.Success? && |r.value| == 1 && MeasuredAs(sha384, ld, r.value[0], 5, s.gpa, Zeros(48))
  {
    MeasuredBytes(sha384, ld, PagesFor(image, hashes, s).value[0]);
  }

  /** A CPUID section is one page of type 6, without contents. */
  lemma CpuidMeasured(sha384: Hash, ld: Digest, image: Image, hashes: Option<SevHashes>, s: Section)
    requires s.kind.CpuidPage?
    ensures var r := PagesFor(image, hashes, s);
            r.Success? && |r.value| == 1 && MeasuredAs(sha384, ld, r.value[0], 6, s.gpa, Zeros(48))
  {
    MeasuredBytes(sha384, ld, PagesFor(image, hashes, s).value[0]);
  }

  /** Zero pages of type 3 at ascending addresses over a whole number of pages, or an error. */
  predicate ZerosFrom(sha384: Hash, ld: Digest, r: Result<seq<Page>, MeasurementError>, gpa: U32, size: U32) {
    && (r.Success? <==> size % 4096 == 0)
    && (r.Success? ==>
          && 4096 * |r.value| == size
          && forall i :: 0 <= i < |r.value| ==>
               MeasuredAs(sha384, ld, r.value[i], 3, gpa + 4096 * i, Zeros(48)))
    && (r.Failure? ==> r.error == ContextFault(InvalidBlockSize))
  }

  lemma ZeroPagesMeasured(sha384: Hash, ld: Digest, gpa: U32, size: U32)
    ensures ZerosFrom(sha384, ld, OfContext(PagesOf(Zero, gpa, None, Some(size))), gpa, size)
  {
    if size % 4096 == 0 {
      var ps := ZeroPages(gpa, size);
      forall i | 0 <= i < |ps| ensures MeasuredAs(sha384, ld, ps[i], 3, gpa + 4096 * i, Zeros(48)) {
        MeasuredBytes(sha384, ld, ps[i]);
      }
    }
  }

  /** A memory section is zero pages. */
  lemma MemoryMeasured(sha384: Hash, ld: Digest, image: Image, hashes: Option<SevHashes>, s: Section)
    requires s.kind.SecMemory?
    ensures ZerosFrom(sha384, ld, PagesFor(image, hashes, s), s.gpa, s.size)
  {
    ZeroPagesMeasured(sha384, ld, s.gpa, s.size);
  }

  /** A kernel-hashes section is zero pages without a kernel. */
  lemma NoKernelMeasured(sha384: Hash, ld: Digest, image: Image, s: Section)
    requires s.kind.KernelHashes?
    ensures ZerosFrom(sha384, ld, PagesFor(image, None, s), s.gpa, s.size)
  {
    ZeroPagesMeasured(sha384, ld, s.gpa, s.size);
  }

  lemma OnePage(gpa: U32, page: Bytes)
    requires |page| == PAGE
    ensures PagesOf(Normal, gpa, Some(page), None) == Success([Page(Normal, gpa, page)])
  {
    assert page[PAGE * 0..PAGE * 1] == page;
    assert NormalPages(gpa, page) == [Page(Normal, gpa, page)];
  }

  /** A page that is zero but for the hash table at an offset. */
  predicate HoldsTable(page: Bytes, h: SevHashes, offset: nat) {
    && |page| == 4096
    && forall k :: 0 <= k < 4096 ==>
         page[k] == if offset <= k < offset + 176 then ConstructTable(h)[k - offset] else 0
  }

  lemma HashPageHolds(h: SevHashes, offset: nat)
    ensures HoldsTable(HashPage(h, offset), h, offset)
  {
  }

  lemma KernelPagesAre(image: Image, h: SevHashes, s: Section)
    requires s.kind.KernelHashes?
    ensures PagesFor(image, Some(h), s) ==
            match image.TableU32(HASH_TABLE_GUID)
            case Failure(e) => Failure(FirmwareFault(e))
            case Success(gpa) =>
              if s.size != 4096 then Failure(PageSizeAssertion)
              else Success([Page(Normal, s.gpa, HashPage(h, gpa % 4096))])
  {
    if image.TableU32(HASH_TABLE_GUID).Success? {
      OnePage(s.gpa, HashPage(h, image.TableU32(HASH_TABLE_GUID).value % 4096));
    }
  }

  /** With a kernel it is one page of type 1 that is zero but for the hash table at the offset
      the image reserves, and must be one page long. */
  lemma KernelMeasured(sha384: Hash, ld: Digest, image: Image, h: SevHashes, s: Section)
    requires s.kind.KernelHashes?
    ensures var r := PagesFor(image, Some(h), s);
            match image.TableU32(HASH_TABLE_GUID)
            case Failure(e) => r == Failure(FirmwareFault(e))
            case Success(gpa) =>
              if s.size != 4096 then r == Failure(PageSizeAssertion)
              else
                && r.Success? && |r.value| == 1 && HoldsTable(r.value[0].data, h, gpa % 4096)
                && MeasuredAs(sha384, ld, r.value[0], 1, s.gpa, sha384(r.value[0].data))
  {
    KernelPagesAre(image, h, s);
    if image.TableU32(HASH_TABLE_GUID).Success? && s.size == 4096 {
      var page := HashPage(h, image.TableU32(HASH_TABLE_GUID).value % 4096);
      HashPageHolds(h, image.TableU32(HASH_TABLE_GUID).value % 4096);
      MeasuredBytes(sha384, ld, Page(Normal, s.gpa, page));
    }
  }

  // ---------- hexadecimal ----------

  function HexDigit(n: nat): char
    requires n < 16
  {
    "0123456789abcdef"[n]
  }

  function HexValue(c: char): Option<nat> {
    if '0' <= c <= '9' then Some(c as nat - '0' as nat)
    else if 'a' <= c <= 'f' then Some(c as nat - 'a' as nat + 10)
    else if 'A' <= c <= 'F' then Some(c as nat - 'A' as nat + 10)
    else None
  }

  function ToHex(s: Bytes): string {
    if s == [] then "" else [HexDigit(s[0] / 16), HexDigit(s[0] % 16)] + ToHex(s[1..])
  }

  function FromHex(h: string): Result<Bytes, MeasurementError> {
    if h == "" then Success([])
    else if |h| == 1 then Failure(BadHex)
    else
      match (HexValue(h[0]), HexValue(h[1]))
      case (Some(a), Some(b)) =>
        if a >= 16 || b >= 16 then Failure(BadHex)
        else
          var rest :- FromHex(h[2..]);
          var byte: Byte := 16 * a + b;
          Success([byte] + rest)
      case _ => Failure(BadHex)
  }

  lemma HexDigitValue(n: nat)
    requires n < 16
    ensures HexValue(HexDigit(n)) == Some(n)
  {
  }

  /** One byte in front of a decodable string. */
  lemma FromHexByte(h: string, b: Byte, rest: Bytes)
    requires |h| >= 2 && h[0] == HexDigit(b / 16) && h[1] == HexDigit(b % 16)
    requires FromHex(h[2..]) == Success(rest)
    ensures FromHex(h) == Success([b] + rest)
  {
    HexDigitValue(b / 16);
    HexDigitValue(b % 16);
  }

  lemma {:induction false} HexRoundTrip(s: Bytes)
    ensures FromHex(ToHex(s)) == Success(s)
  {
    if s != [] {
      HexRoundTrip(s[1..]);
      assert ToHex(s)[2..] == ToHex(s[1..]);
      FromHexByte(ToHex(s), s[0], s[1..]);
      assert [s[0]] + s[1..] == s;
    }
  }

  /** A digit in either case. */
  lemma HexValueExact(c: char, v: nat)
    ensures HexValue(c) == Some(v) <==> v < 16 && (c == "0123456789abcdef"[v] || c == "0123456789ABCDEF"[v])
  {
  }

  ghost predicate Spelled(h: string, i: nat, b: Byte)
    requires 2 * i + 1 < |h|
  {
    HexValue(h[2 * i]) == Some(b / 16) && HexValue(h[2 * i + 1]) == Some(b % 16)
  }

  ghost predicate AllSpelled(h: string, s: Bytes)
    requires |h| == 2 * |s|
  {
    forall i {:trigger s[i]} :: 0 <= i < |s| ==> Spelled(h, i, s[i])
  }

  lemma SpelledStep(h: string, s: Bytes)
    requires s != [] && |h| == 2 * |s|
    ensures AllSpelled(h, s) <==> Spelled(h, 0, s[0]) && AllSpelled(h[2..], s[1..])
  {
    var h', s' := h[2..], s[1..];
    assert forall i {:trigger s'[i]} :: 0 <= i < |s'| ==>
        s'[i] == s[i + 1] && h'[2 * i] == h[2 * (i + 1)] && h'[2 * i + 1] == h[2 * (i + 1) + 1];
    if AllSpelled(h', s') && Spelled(h, 0, s[0]) {
      forall i {:trigger s[i]} | 0 <= i < |s| ensures Spelled(h, i, s[i]) {
        if i > 0 { assert Spelled(h', i - 1, s'[i - 1]); }
      }
    }
    if AllSpelled(h, s) {
      forall i {:trigger s'[i]} | 0 <= i < |s'| ensures Spelled(h', i, s'[i]) {
        assert Spelled(h, i + 1, s[i + 1]);
      }
    }
  }

  /** A string decodes to the bytes whose digits, high one first, it spells, and every other
      string is refused. */
  lemma {:induction false} FromHexExact(h: string, s: Bytes)
    ensures FromHex(h) == Success(s) <==> |h| == 2 * |s| && AllSpelled(h, s)
    ensures FromHex(h).Failure? ==> FromHex(h) == Failure(BadHex)
    decreases |h|
  {
    if |h| >= 2 {
      FromHexExact(h[2..], if s == [] then [] else s[1..]);
      if s != [] {
        assert s == [s[0]] + s[1..];
        if |h| == 2 * |s| { SpelledStep(h, s); }
      }
    }
  }

  // ---------- the whole calculation ----------

  datatype Args = Args(
    vcpus: U32, cpuSig: U64, features: U64, ovmf: Bytes, kernel: Option<Bytes>, initrd: Option<Bytes>,
    append: Option<Bytes>, ovmfHash: Option<string>, vmm: Option<Vmm>)
  {
    function VmmType(): Vmm { if vmm.Some? then vmm.value else SaveAreas.QEMU }

    function Hashes(sha256: Sha256): Option<SevHashes> {
      if kernel.Some? then Some(HashesOf(sha256, kernel.value, initrd, append)) else None
    }
  }

  /** The firmware pages, which lie exactly below 4 GiB; an image longer than that
      underflows. */
  function FirmwarePages(image: Image): Result<seq<Page>, MeasurementError> {
    if |image.data| > FOUR_GB then Failure(FirmwareFault(Panic))
    else OfContext(PagesOf(Normal, image.Gpa(), Some(image.data), None))
  }

  /** The firmware pages tile exactly the range from 4 GiB minus the image size to 4 GiB, and
      together hold the image. */
  lemma FirmwareTiles(image: Image, k: nat)
    requires FirmwarePages(image).Success? && k < |image.data|
    ensures var ps := FirmwarePages(image).value;
            && PAGE * |ps| == |image.data| <= FOUR_GB
            && (forall i :: 0 <= i < |ps| ==> ps[i].gpa == FOUR_GB - |image.data| + PAGE * i)
            && k / PAGE < |ps| && |ps[k / PAGE].data| == PAGE
            && ps[k / PAGE].gpa + k % PAGE == FOUR_GB - |image.data| + k
            && ps[k / PAGE].data[k % PAGE] == image.data[k]
  {
    var ps, i := FirmwarePages(image).value, k / PAGE;
    assert k == PAGE * i + k % PAGE && |image.data| == PAGE * |ps|;
    assert i < |ps|;
    SpanBound(image.Gpa(), |image.data|, i);
    assert ps[i].data == image.data[PAGE * i..PAGE * (i + 1)];
  }

  /** The firmware is measured whole pages at a time as type 1, hashing each page; it must be
      aligned and fit below 4 GiB. */
  lemma FirmwareMeasured(sha384: Hash, ld: Digest, image: Image)
    ensures var r, len := FirmwarePages(image), |image.data|;
            && (r.Success? <==> len <= 0x1_0000_0000 && len % 4096 == 0)
            && (r.Success? ==>
                  && 4096 * |r.value| == len
                  && forall i {:trigger r.value[i]} :: 0 <= i < |r.value| ==>
                       && 4096 * i + 4096 <= len
                       && MeasuredAs(sha384, ld, r.value[i], 1, 0x1_0000_0000 - len + 4096 * i,
                                     sha384(image.data[4096 * i..4096 * i + 4096])))
  {
    var r := FirmwarePages(image);
    if r.Success? {
      forall i | 0 <= i < |r.value|
        ensures 4096 * i + 4096 <= |image.data|
        ensures MeasuredAs(sha384, ld, r.value[i], 1, 0x1_0000_0000 - |image.data| + 4096 * i,
                           sha384(image.data[4096 * i..4096 * i + 4096]))
      {
        NormalPageAt(image.Gpa(), image.data, i);
        MeasuredBytes(sha384, ld, r.value[i]);
      }
    }
  }

  function SeedOf(hex: string): Result<Digest, MeasurementError> {
    var bytes :- FromHex(hex);
    if |bytes| == LD_SIZE then Success(bytes) else Failure(BadDigestLength)
  }

  /** A seed is 96 digits that spell a digest. */
  lemma SeedExact(hex: string, d: Digest)
    ensures SeedOf(hex) == Success(d) <==> |hex| == 96 && AllSpelled(hex, d)
    ensures SeedOf(hex) == Failure(BadDigestLength) <==> FromHex(hex).Success? && |hex| != 96
  {
    FromHexExact(hex, d);
    if FromHex(hex).Success? { FromHexExact(hex, FromHex(hex).value); }
  }

  /** The digest before any metadata: given as a seed, or measured from the firmware. */
  function StartDigest(sha384: Hash, image: Image, seed: Option<string>): Result<Digest, MeasurementError> {
    match seed
    case Some(hex) => SeedOf(hex)
    case None =>
      var pages :- FirmwarePages(image);
      Success(Measure(sha384, ZEROS, pages))
  }

  function VmsaPages(contents: seq<Bytes>): (ps: seq<Page>)
    ensures |ps| == |contents|
    decreases |contents|
  {
    if contents == [] then []
    else VmsaPages(contents[..|contents|-1]) + [Page(Vmsa, VMSA_GPA, contents[|contents|-1])]
  }

  lemma {:induction false} VmsaPagesAt(contents: seq<Bytes>)
    ensures forall i :: 0 <= i < |contents| ==> VmsaPages(contents)[i] == Page(Vmsa, VMSA_GPA, contents[i])
    decreases |contents|
  {
    if contents != [] { VmsaPagesAt(contents[..|contents|-1]); }
  }

  function CpuStates(image: Image, args: Args): SaveAreas.Vmsa
    requires image.ResetEip().Success?
  {
    SaveAreas.VmsaOf(image.ResetEip().value, args.features, args.cpuSig, args.VmmType(), Some(args.vcpus))
  }

  /** A VMSA page is measured as type 2 at the fixed VMSA address, hashing the page. */
  lemma CpusMeasured(sha384: Hash, ld: Digest, contents: seq<Bytes>)
    ensures |VmsaPages(contents)| == |contents|
    ensures forall i :: 0 <= i < |contents| ==>
              MeasuredAs(sha384, ld, VmsaPages(contents)[i], 2, 0xFFFF_FFFF_F000, sha384(contents[i]))
  {
    VmsaPagesAt(contents);
    forall i | 0 <= i < |contents|
      ensures MeasuredAs(sha384, ld, VmsaPages(contents)[i], 2, 0xFFFF_FFFF_F000, sha384(contents[i]))
    {
      MeasuredBytes(sha384, ld, VmsaPages(contents)[i]);
    }
  }

  function StatePages(v: SaveAreas.Vmsa, n: nat): seq<Page> {
    VmsaPages(SaveAreas.Pages(v, n))
  }

  function CpuPages(image: Image, args: Args): Result<seq<Page>, MeasurementError> {
    var _ :- OfImage(image.ResetEip());
    Success(StatePages(CpuStates(image, args), args.vcpus))
  }

  function Digest384(sha384: Hash, sha256: Sha256, args: Args): Result<Digest, MeasurementError> {
    var image :- OfImage(ParseImage(args.ovmf));
    var start :- StartDigest(sha384, image, args.ovmfHash);
    var pages :- GuestPages(sha256, image, args);
    Success(Measure(sha384, start, pages))
  }

  /** Everything measured after the firmware. */
  function GuestPages(sha256: Sha256, image: Image, args: Args): Result<seq<Page>, MeasurementError> {
    var metadata :- MetadataPages(image, args.Hashes(sha256), args.VmmType());
    var cpus :- CpuPages(image, args);
    Success(metadata + cpus)
  }

  function OvmfHash(sha384: Hash, ovmf: Bytes): Result<Digest, MeasurementError> {
    var image :- OfImage(ParseImage(ovmf));
    StartDigest(sha384, image, None)
  }

  // ---------- the calculation, step by step ----------

  method UpdateKernelHashes(g: Gctx, image: Image, hashes: Option<SevHashes>, gpa: U32, size: U32)
      returns (r: Result<(), MeasurementError>)
    modifies g`ld
    ensures match KernelHashPages(image, hashes, gpa, size)
            case Failure(e) => r == Failure(e)
            case Success(ps) => r == Success(()) && g.ld == Measure(g.sha384, old(g.ld), ps)
  {
    match hashes {
      case Some(h) =>
        var table := image.HashTableGpa();
        if table.Failure? { return Failure(FirmwareFault(table.error)); }
        var built := ConstructPage(h, table.value % 4096);
        match built {
          case Failure(e) => r := Failure(HashPageFault(e));
          case Success(page) =>
            if |page| != size { return Failure(PageSizeAssertion); }
            var done := g.UpdatePage(Normal, gpa, Some(page), None);
            r := OfContext(done);
        }
      case None =>
        var done := g.UpdatePage(Zero, gpa, None, Some(size));
        r := OfContext(done);
    }
  }

  method UpdateSection(s: Section, g: Gctx, image: Image, hashes: Option<SevHashes>, vmm: Vmm)
      returns (r: Result<(), MeasurementError>)
    modifies g`ld
    ensures match SectionPages(image, hashes, vmm, s)
            case Failure(e) => r == Failure(e)
            case Success(ps) => r == Success(()) && g.ld == Measure(g.sha384, old(g.ld), ps)
  {
    match s.kind {
      case SecMemory =>
        var done := g.UpdatePage(Zero, s.gpa, None, Some(s.size));
        r := OfContext(done);
      case SecretsPage =>
        var done := g.UpdatePage(Secrets, s.gpa, None, None);
        r := OfContext(done);
      case CpuidPage =>
        g.MeasureNone(g.ld);
        r := Success(());
        if !vmm.EC2? {
          var done := g.UpdatePage(Cpuid, s.gpa, None, None);
          r := OfContext(done);
        }
      case KernelHashes =>
        r := UpdateKernelHashes(g, image, hashes, s.gpa, s.size);
    }
  }

  /** An error at one section is the error of the whole pass. */
  lemma {:induction false} FirstError(image: Image, hashes: Option<SevHashes>, vmm: Vmm, ss: seq<Section>, i: nat)
    requires i <= |ss| && SectionsPages(image, hashes, vmm, ss[..i]).Failure?
    ensures SectionsPages(image, hashes, vmm, ss) == SectionsPages(image, hashes, vmm, ss[..i])
    decreases |ss|
  {
    if i < |ss| {
      assert ss[..|ss|-1][..i] == ss[..i];
      FirstError(image, hashes, vmm, ss[..|ss|-1], i);
    } else {
      assert ss[..i] == ss;
    }
  }

  method UpdateSections(g: Gctx, image: Image, hashes: Option<SevHashes>, vmm: Vmm)
      returns (r: Result<(), MeasurementError>)
    modifies g`ld
    ensures match SectionsPages(image, hashes, vmm, image.sections)
            case Failure(e) => r == Failure(e)
            case Success(ps) => r == Success(()) && g.ld == Measure(g.sha384, old(g.ld), ps)
  {
    var ss := image.sections;
    ghost var done: seq<Page> := [];
    g.MeasureNone(g.ld);
    for i := 0 to |ss|
      invariant SectionsPages(image, hashes, vmm, ss[..i]) == Success(done)
      invariant g.ld == Measure(g.sha384, old(g.ld), done)
    {
      assert ss[..i + 1][..i] == ss[..i];
      ghost var step := SectionPages(image, hashes, vmm, ss[i]);
      r := UpdateSection(ss[i], g, image, hashes, vmm);
      if r.Failure? {
        FirstError(image, hashes, vmm, ss, i + 1);
        return;
      }
      MeasureAppend(g.sha384, old(g.ld), done, step.value);
      done := done + step.value;
    }
    assert ss[..|ss|] == ss;
    r := Success(());
  }

  method UpdateLateCpuid(g: Gctx, ss: seq<Section>) returns (r: Result<(), MeasurementError>)
    modifies g`ld
    ensures r == Success(()) && g.ld == Measure(g.sha384, old(g.ld), LateCpuid(ss))
  {
    g.MeasureNone(g.ld);
    for i := 0 to |ss|
      invariant g.ld == Measure(g.sha384, old(g.ld), LateCpuid(ss[..i]))
    {
      assert ss[..i + 1][..i] == ss[..i];
      if ss[i].kind == CpuidPage {
        var done := g.UpdatePage(Cpuid, ss[i].gpa, None, None);
        r := OfContext(done);
        if r.Failure? { return; }
        MeasureAppend(g.sha384, old(g.ld), LateCpuid(ss[..i]), [CpuidPageOf(ss[i])]);
      } else {
        assert LateCpuid(ss[..i]) + [] == LateCpuid(ss[..i]);
      }
    }
    assert ss[..|ss|] == ss;
    r := Success(());
  }

  method UpdateMetadataPages(g: Gctx, image: Image, hashes: Option<SevHashes>, vmm: Vmm)
      returns (r: Result<(), MeasurementError>)
    modifies g`ld
    ensures match MetadataPages(image, hashes, vmm)
            case Failure(e) => r == Failure(e)
            case Success(ps) => r == Success(()) && g.ld == Measure(g.sha384, old(g.ld), ps)
  {
    r := UpdateSections(g, image, hashes, vmm);
    if r.Failure? { return; }
    ghost var each := SectionsPages(image, hashes, vmm, image.sections).value;
    assert each + [] == each;
    if vmm.EC2? {
      r := UpdateLateCpuid(g, image.sections);
      MeasureAppend(g.sha384, old(g.ld), each, LateCpuid(image.sections));
    }
    if hashes.Some? && !image.HasSection(KernelHashes) {
      return Failure(MissingKernelHashes);
    }
    r := Success(());
  }

  method ParseFirmware(ovmf: Bytes) returns (r: Result<Image, MeasurementError>)
    ensures r == OfImage(ParseImage(ovmf))
  {
    var firmware := new Ovmf(ovmf);
    var image := firmware.Parse();
    r := OfImage(image);
  }

  method UpdateFirmware(g: Gctx, image: Image) returns (r: Result<(), MeasurementError>)
    modifies g`ld
    ensures match FirmwarePages(image)
            case Failure(e) => r == Failure(e)
            case Success(ps) => r == Success(()) && g.ld == Measure(g.sha384, old(g.ld), ps)
  {
    if |image.data| > FOUR_GB { return Failure(FirmwareFault(Panic)); }
    var done := g.UpdatePage(Normal, image.Gpa(), Some(image.data), None);
    r := OfContext(done);
  }

  /** `calc_snp_ovmf_hash`. */
  method CalcOvmfHash(sha384: Hash, ovmf: Bytes) returns (r: Result<Digest, MeasurementError>)
    ensures r == OvmfHash(sha384, ovmf)
  {
    var image := ParseFirmware(ovmf);
    if image.Failure? { return Failure(image.error); }
    var g := new Gctx(sha384);
    var done := UpdateFirmware(g, image.value);
    if done.Failure? { return Failure(done.error); }
    r := Success(g.ld);
  }

  method StartContext(sha384: Hash, image: Image, seed: Option<string>) returns (r: Result<Gctx, MeasurementError>)
    ensures match StartDigest(sha384, image, seed)
            case Failure(e) => r == Failure(e)
            case Success(d) => r.Success? && fresh(r.value) && r.value.ld == d && r.value.sha384 == sha384
  {
    if seed.Some? {
      var start := SeedOf(seed.value);
      if start.Failure? { return Failure(start.error); }
      var g := new Gctx.FromSeed(sha384, start.value);
      r := Success(g);
    } else {
      var g := new Gctx(sha384);
      var done := UpdateFirmware(g, image);
      if done.Failure? { return Failure(done.error); }
      r := Success(g);
    }
  }

  method UpdateCpu(g: Gctx, content: Bytes) returns (r: Result<(), MeasurementError>)
    requires |content| == PAGE
    modifies g`ld
    ensures r == Success(()) && g.ld == Measure(g.sha384, old(g.ld), [Page(Vmsa, VMSA_GPA, content)])
  {
    var done := g.UpdatePage(Vmsa, VMSA_GPA, Some(content), None);
    r := OfContext(done);
  }

  lemma CpuStep(sha384: Hash, ld: Digest, contents: seq<Bytes>, i: nat)
    requires i < |contents|
    ensures Measure(sha384, ld, VmsaPages(contents[..i + 1])) ==
            Measure(sha384, Measure(sha384, ld, VmsaPages(contents[..i])), [Page(Vmsa, VMSA_GPA, contents[i])])
  {
    assert contents[..i + 1][..i] == contents[..i];
    MeasureAppend(sha384, ld, VmsaPages(contents[..i]), [Page(Vmsa, VMSA_GPA, contents[i])]);
  }

  method UpdateCpus(g: Gctx, contents: seq<Bytes>) returns (r: Result<(), MeasurementError>)
    requires forall c :: c in contents ==> |c| == PAGE
    modifies g`ld
    ensures r == Success(()) && g.ld == Measure(g.sha384, old(g.ld), VmsaPages(contents))
  {
    g.MeasureNone(g.ld);
    for i := 0 to |contents|
      invariant g.ld == Measure(g.sha384, old(g.ld), VmsaPages(contents[..i]))
    {
      assert contents[i] in contents;
      CpuStep(g.sha384, old(g.ld), contents, i);
      r := UpdateCpu(g, contents[i]);
      if r.Failure? { return; }
    }
    assert contents[..|contents|] == contents;
    r := Success(());
  }

  /** `snp_calc_launch_digest`. */
  method CalcLaunchDigest(sha384: Hash, sha256: Sha256, args: Args) returns (r: Result<Digest, MeasurementError>)
    ensures r == Digest384(sha384, sha256, args)
  {
    var image := ParseFirmware(args.ovmf);
    if image.Failure? { return Failure(image.error); }
    var start := StartContext(sha384, image.value, args.ovmfHash);
    if start.Failure? { return Failure(start.error); }
    var g := start.value;
    ghost var seed := g.ld;
    var done := UpdateMetadataPages(g, image.value, args.Hashes(sha256), args.VmmType());
    if done.Failure? { return Failure(done.error); }
    var eip := OfImage(image.value.ResetEip());
    if eip.Failure? { return Failure(eip.error); }
    var vmsa := SaveAreas.NewVmsa(eip.value, args.features, args.cpuSig, args.VmmType(), Some(args.vcpus));
    var pages := SaveAreas.BuildPages(vmsa, args.vcpus);
    SaveAreas.PagesShape(vmsa, args.vcpus);
    var _ := UpdateCpus(g, pages);
    ghost var metadata := MetadataPages(image.value, args.Hashes(sha256), args.VmmType()).value;
    MeasureAppend(sha384, seed, metadata, VmsaPages(pages));
    r := Success(g.ld);
  }

  // ---------- the seed shortcut ----------

  lemma SeedIsStart(sha384: Hash, image: Image, d: Digest)
    ensures StartDigest(sha384, image, Some(ToHex(d))) == Success(d)
  {
    HexRoundTrip(d);
  }

  function MeasureFrom(sha384: Hash, start: Digest, pages: Result<seq<Page>, MeasurementError>)
      : Result<Digest, MeasurementError>
  {
    if pages.Failure? then Failure(pages.error) else Success(Measure(sha384, start, pages.value))
  }

  /** The seed matters only for the digest to start from. */
  lemma StartedFrom(sha384: Hash, sha256: Sha256, image: Image, start: Digest, args: Args, seed: Option<string>)
    requires ParseImage(args.ovmf) == Success(image) && StartDigest(sha384, image, seed) == Success(start)
    ensures Digest384(sha384, sha256, args.(ovmfHash := seed)) ==
            MeasureFrom(sha384, start, GuestPages(sha256, image, args))
  {
    assert GuestPages(sha256, image, args.(ovmfHash := seed)) == GuestPages(sha256, image, args);
  }

  /** Passing the firmware hash computed beforehand gives the same result as computing it. */
  lemma SeedShortcut(sha384: Hash, sha256: Sha256, args: Args)
    requires OvmfHash(sha384, args.ovmf).Success?
    ensures Digest384(sha384, sha256, args.(ovmfHash := Some(ToHex(OvmfHash(sha384, args.ovmf).value)))) ==
            Digest384(sha384, sha256, args.(ovmfHash := None))
  {
    var image, d := ParseImage(args.ovmf).value, OvmfHash(sha384, args.ovmf).value;
    SeedIsStart(sha384, image, d);
    StartedFrom(sha384, sha256, image, d, args, Some(ToHex(d)));
    StartedFrom(sha384, sha256, image, d, args, None);
  }

  // ---------- one more CPU ----------

  /** The page of an application processor. */
  function ApPage(image: Image, args: Args): Page
    requires image.ResetEip().Success?
  {
    var ap := CpuStates(image, args).ap;
    Page(Vmsa, VMSA_GPA, if ap.Some? then SaveAreas.PageOf(ap.value) else [])
  }

  lemma VmsaPagesSnoc(contents: seq<Bytes>, c: Bytes)
    ensures VmsaPages(contents + [c]) == VmsaPages(contents) + [Page(Vmsa, VMSA_GPA, c)]
  {
    assert (contents + [c])[..|contents|] == contents;
  }

  lemma VmsaPagesMore(v: SaveAreas.Vmsa, n: nat)
    requires n >= 1
    ensures StatePages(v, n + 1) ==
            StatePages(v, n) +
            if v.ap.Some? then [Page(Vmsa, VMSA_GPA, SaveAreas.PageOf(v.ap.value))] else []
  {
    var pages := SaveAreas.Pages(v, n);
    if v.ap.Some? {
      VmsaPagesSnoc(pages, SaveAreas.PageOf(v.ap.value));
    } else {
      assert pages + [] == pages && VmsaPages(pages) + [] == VmsaPages(pages);
    }
  }

  lemma ApWithStart(image: Image, args: Args)
    requires image.ResetEip().Success?
    ensures CpuStates(image, args).ap.Some? <==> image.ResetEip().value > 0
  {
  }

  lemma SameStates(image: Image, args: Args)
    requires 1 <= args.vcpus && args.vcpus + 1 < 0x1_0000_0000 && image.ResetEip().Success?
    ensures CpuStates(image, args.(vcpus := args.vcpus + 1)) == CpuStates(image, args)
  {
    SaveAreas.CountIrrelevant(image.ResetEip().value, args.features, args.cpuSig, args.VmmType(), args.vcpus);
  }

  lemma PagesOfStates(image: Image, args: Args, v: SaveAreas.Vmsa)
    requires image.ResetEip().Success? && CpuStates(image, args) == v
    ensures CpuPages(image, args) == Success(StatePages(v, args.vcpus))
  {
  }

  lemma MorePagesAre(image: Image, args: Args)
    requires 1 <= args.vcpus && args.vcpus + 1 < 0x1_0000_0000 && image.ResetEip().Success?
    ensures CpuPages(image, args.(vcpus := args.vcpus + 1)) ==
            Success(StatePages(CpuStates(image, args), args.vcpus + 1))
  {
    SameStates(image, args);
    PagesOfStates(image, args.(vcpus := args.vcpus + 1), CpuStates(image, args));
  }

  /** The pages of the further CPU. */
  function ApPages(image: Image, args: Args): seq<Page>
    requires image.ResetEip().Success?
  {
    if image.ResetEip().value == 0 then [] else [ApPage(image, args)]
  }

  lemma MoreStatePages(image: Image, args: Args)
    requires 1 <= args.vcpus && image.ResetEip().Success?
    ensures var v := CpuStates(image, args);
            StatePages(v, args.vcpus + 1) == StatePages(v, args.vcpus) + ApPages(image, args)
  {
    ApWithStart(image, args);
    VmsaPagesMore(CpuStates(image, args), args.vcpus);
  }

  lemma MoreCpuPages(image: Image, args: Args)
    requires 1 <= args.vcpus && args.vcpus + 1 < 0x1_0000_0000 && image.ResetEip().Success?
    ensures var more := args.(vcpus := args.vcpus + 1);
            && CpuPages(image, args).Success?
            && CpuPages(image, more) == Success(CpuPages(image, args).value + ApPages(image, args))
  {
    PagesOfStates(image, args, CpuStates(image, args));
    MorePagesAre(image, args);
    MoreStatePages(image, args);
  }

  lemma AppendMaybe(a: seq<Page>, b: seq<Page>, absent: bool, p: Page)
    ensures a + (b + if absent then [] else [p]) == if absent then a + b else a + b + [p]
  {
  }

  lemma MoreGuestPages(sha256: Sha256, image: Image, args: Args)
    requires 1 <= args.vcpus && args.vcpus + 1 < 0x1_0000_0000
    ensures var more := args.(vcpus := args.vcpus + 1);
            match GuestPages(sha256, image, args)
            case Failure(e) => GuestPages(sha256, image, more) == Failure(e)
            case Success(ps) =>
              && image.ResetEip().Success?
              && GuestPages(sha256, image, more) ==
                 Success(if image.ResetEip().value == 0 then ps else ps + [ApPage(image, args)])
  {
    var metadata := MetadataPages(image, args.Hashes(sha256), args.VmmType());
    assert metadata == MetadataPages(image, args.(vcpus := args.vcpus + 1).Hashes(sha256), args.VmmType());
    if image.ResetEip().Success? && metadata.Success? {
      MoreCpuPages(image, args);
      AppendMaybe(metadata.value, CpuPages(image, args).value, image.ResetEip().value == 0, ApPage(image, args));
    }
  }

  /** A guest with one more CPU has the digest of the smaller guest extended by one more
      application-processor page, or the same digest when there is no start address. */
  lemma OneMoreCpu(sha384: Hash, sha256: Sha256, args: Args)
    requires 1 <= args.vcpus && args.vcpus + 1 < 0x1_0000_0000
    ensures var more := args.(vcpus := args.vcpus + 1);
            match Digest384(sha384, sha256, args)
            case Failure(e) => Digest384(sha384, sha256, more) == Failure(e)
            case Success(d) =>
              var image := ParseImage(args.ovmf).value;
              && image.ResetEip().Success?
              && Digest384(sha384, sha256, more) ==
                 Success(if image.ResetEip().value == 0 then d else Measure(sha384, d, [ApPage(image, args)]))
  {
    if ParseImage(args.ovmf).Success? {
      var image := ParseImage(args.ovmf).value;
      MoreGuestPages(sha256, image, args);
      var start, pages := StartDigest(sha384, image, args.ovmfHash), GuestPages(sha256, image, args);
      if start.Success? && pages.Success? {
        MeasureAppend(sha384, start.value, pages.value, [ApPage(image, args)]);
      }
    }
  }
}

/** What a launch digest commits to: everything that was measured, or else the two launches
    exhibit a break of SHA-384. */
module LaunchBinding {
  import opened ByteStrings
  import opened Outcomes
  import opened GuestContext
  import opened Firmware
  import opened KernelHashTable
  import opened LaunchDigest
  import SaveAreas

  /** Every page of a launch, firmware first. */
  function AllPages(sha256: Sha256, args: Args): Result<seq<Page>, MeasurementError> {
    var image :- OfImage(ParseImage(args.ovmf));
    var firmware :- FirmwarePages(image);
    var guest :- GuestPages(sha256, image, args);
    Success(firmware + guest)
  }

  /** The whole list: firmware, then the scheduled sections, then the CPUs, the boot processor
      first; QEMU unless a hypervisor is given.  It exists exactly when each part does. */
  lemma AllPagesAre(sha256: Sha256, args: Args)
    ensures match ParseImage(args.ovmf)
            case Failure(e) => AllPages(sha256, args) == Failure(FirmwareFault(e))
            case Success(image) =>
              var vmm := match args.vmm case Some(v) => v case None => SaveAreas.QEMU;
              var hashes := match args.kernel
                            case None => None
                            case Some(k) => Some(HashesOf(sha256, k, args.initrd, args.append));
              && (AllPages(sha256, args).Success? <==>
                    && FirmwarePages(image).Success? && image.TableU32(RESET_BLOCK_GUID).Success?
                    && (forall s :: s in image.sections ==> SectionOk(image, hashes, s))
                    && (args.kernel.Some? ==> exists s :: s in image.sections && s.kind == KernelHashes))
              && (AllPages(sha256, args).Success? ==>
                    var v := SaveAreas.VmsaOf(image.TableU32(RESET_BLOCK_GUID).value, args.features, args.cpuSig, vmm,
                                              Some(args.vcpus));
                    AllPages(sha256, args).value ==
                    FirmwarePages(image).value + (Flatten(image, hashes, Schedule(vmm, image.sections)) +
                                                  VmsaPages(SaveAreas.Pages(v, args.vcpus))))
  {
    if ParseImage(args.ovmf).Success? {
      var image := ParseImage(args.ovmf).value;
      ScheduleRefined(image, args.Hashes(sha256), args.VmmType());
      assert image.HasSection(KernelHashes) <==> exists s :: s in image.sections && s.kind == KernelHashes;
    }
  }

  /** Without a seed, the digest is that of all pages from the all-zero digest. */
  lemma DigestOfPages(sha384: Hash, sha256: Sha256, args: Args)
    requires args.ovmfHash.None?
    ensures match AllPages(sha256, args)
            case Failure(e) => Digest384(sha384, sha256, args) == Failure(e)
            case Success(ps) => Digest384(sha384, sha256, args) == Success(Measure(sha384, ZEROS, ps))
  {
    if AllPages(sha256, args).Success? {
      var image := ParseImage(args.ovmf).value;
      MeasureAppend(sha384, ZEROS, FirmwarePages(image).value, GuestPages(sha256, image, args).value);
    }
  }

  // ---------- the firmware ----------

  lemma SamePagesSameData(gpa: U64, d: Bytes, d': Bytes)
    requires Aligned(|d|) && |d| == |d'| && SpanFits(gpa, |d|)
    requires NormalPages(gpa, d) == NormalPages(gpa, d')
    ensures d == d'
  {
    forall k | 0 <= k < |d| ensures d[k] == d'[k] {
      var i := k / PAGE;
      assert PAGE * i <= k < PAGE * (i + 1);
      SpanBound(gpa, |d|, i);
      assert NormalPages(gpa, d)[i].data[k - PAGE * i] == d[k];
      assert NormalPages(gpa, d')[i].data[k - PAGE * i] == d'[k];
    }
  }

  /** The first page carries the image size in its address, so the firmware is a prefix of
      known length. */
  lemma FirmwareDetermined(a: Image, b: Image, x: seq<Page>, y: seq<Page>)
    requires |a.data| > 0 && |b.data| > 0
    requires FirmwarePages(a).Success? && FirmwarePages(b).Success?
    requires FirmwarePages(a).value + x == FirmwarePages(b).value + y
    ensures a.data == b.data && x == y
  {
    var p, q := FirmwarePages(a).value, FirmwarePages(b).value;
    assert (p + x)[0] == p[0] && (q + y)[0] == q[0];
    assert a.Gpa() == b.Gpa();
    SplitEqual(p, x, q, y);
    SamePagesSameData(a.Gpa(), a.data, b.data);
  }

  // ---------- metadata against CPU pages ----------

  ghost predicate NoVmsa(ps: seq<Page>) {
    forall i :: 0 <= i < |ps| ==> !ps[i].ptype.Vmsa?
  }

  ghost predicate OnlyVmsa(ps: seq<Page>) {
    forall i :: 0 <= i < |ps| ==> ps[i].ptype.Vmsa?
  }

  ghost predicate AllValid(ps: seq<Page>) {
    forall p :: p in ps ==> p.Valid() && p.Single()
  }

  lemma VmsaAt(m: seq<Page>, c: seq<Page>, i: nat)
    requires i < |m + c| && NoVmsa(m) && OnlyVmsa(c)
    ensures (m + c)[i].ptype.Vmsa? <==> i >= |m|
  {
  }

  lemma SplitAtVmsa(m: seq<Page>, c: seq<Page>, m': seq<Page>, c': seq<Page>)
    requires m + c == m' + c' && NoVmsa(m) && NoVmsa(m') && OnlyVmsa(c) && OnlyVmsa(c')
    ensures m == m' && c == c'
  {
    var k := if |m| < |m'| then |m| else |m'|;
    if k < |m + c| {
      VmsaAt(m, c, k);
      VmsaAt(m', c', k);
    }
    SplitEqual(m, c, m', c');
  }

  lemma SectionShape(image: Image, hashes: Option<SevHashes>, vmm: Vmm, s: Section)
    requires SectionPages(image, hashes, vmm, s).Success?
    ensures NoVmsa(SectionPages(image, hashes, vmm, s).value) && AllValid(SectionPages(image, hashes, vmm, s).value)
  {
  }

  lemma {:induction false} SectionsShape(image: Image, hashes: Option<SevHashes>, vmm: Vmm, ss: seq<Section>)
    requires SectionsPages(image, hashes, vmm, ss).Success?
    ensures NoVmsa(SectionsPages(image, hashes, vmm, ss).value)
    ensures AllValid(SectionsPages(image, hashes, vmm, ss).value)
    decreases |ss|
  {
    if ss != [] {
      SectionsShape(image, hashes, vmm, ss[..|ss|-1]);
      SectionShape(image, hashes, vmm, ss[|ss|-1]);
    }
  }

  lemma {:induction false} LateShape(ss: seq<Section>)
    ensures NoVmsa(LateCpuid(ss)) && AllValid(LateCpuid(ss))
    ensures forall p :: p in LateCpuid(ss) ==> p.ptype.Cpuid?
    decreases |ss|
  {
    if ss != [] { LateShape(ss[..|ss|-1]); }
  }

  lemma MetadataShape(image: Image, hashes: Option<SevHashes>, vmm: Vmm)
    requires MetadataPages(image, hashes, vmm).Success?
    ensures NoVmsa(MetadataPages(image, hashes, vmm).value) && AllValid(MetadataPages(image, hashes, vmm).value)
  {
    SectionsShape(image, hashes, vmm, image.sections);
    LateShape(image.sections);
  }

  // ---------- the kernel hashes ----------

  /** The page a kernel-hashes section is measured as. */
  predicate IsHashPage(image: Image, hashes: Option<SevHashes>, p: Page) {
    hashes.Some? && HashOffset(image).Success? && p.data == HashPage(hashes.value, HashOffset(image).value)
  }

  lemma HashPageOf(image: Image, hashes: Option<SevHashes>, vmm: Vmm, s: Section)
    requires SectionPages(image, hashes, vmm, s).Success?
    ensures var ps := SectionPages(image, hashes, vmm, s).value;
            && (forall p :: p in ps && p.ptype.Normal? ==> IsHashPage(image, hashes, p))
            && (s.kind.KernelHashes? && hashes.Some? ==> exists p :: p in ps && p.ptype.Normal?)
  {
    if s.kind.KernelHashes? && hashes.Some? {
      var ps := SectionPages(image, hashes, vmm, s).value;
      var page := HashPage(hashes.value, HashOffset(image).value);
      assert page[PAGE * 0..PAGE * 1] == page;
      assert ps == [Page(Normal, s.gpa, page)];
      assert ps[0] in ps;
    }
  }

  lemma {:induction false} HashPagesOf(image: Image, hashes: Option<SevHashes>, vmm: Vmm, ss: seq<Section>)
    requires SectionsPages(image, hashes, vmm, ss).Success?
    ensures var ps := SectionsPages(image, hashes, vmm, ss).value;
            && (forall p :: p in ps && p.ptype.Normal? ==> IsHashPage(image, hashes, p))
            && (hashes.Some? && (exists i :: 0 <= i < |ss| && ss[i].kind.KernelHashes?) ==>
                  exists p :: p in ps && p.ptype.Normal?)
    decreases |ss|
  {
    if ss != [] {
      var front, s := ss[..|ss|-1], ss[|ss|-1];
      HashPagesOf(image, hashes, vmm, front);
      HashPageOf(image, hashes, vmm, s);
      var ps := SectionsPages(image, hashes, vmm, front).value;
      var qs := SectionPages(image, hashes, vmm, s).value;
      assert forall p :: p in ps || p in qs <==> p in ps + qs;
    }
  }

  /** The normal pages among the metadata pages are exactly hash pages, and there is one
      whenever there is a kernel. */
  lemma HashPages(image: Image, hashes: Option<SevHashes>, vmm: Vmm)
    requires MetadataPages(image, hashes, vmm).Success?
    ensures var ps := MetadataPages(image, hashes, vmm).value;
            && (forall p :: p in ps && p.ptype.Normal? ==> IsHashPage(image, hashes, p))
            && (hashes.Some? ==> exists p :: p in ps && p.ptype.Normal?)
  {
    HashPagesOf(image, hashes, vmm, image.sections);
    LateShape(image.sections);
    var each := SectionsPages(image, hashes, vmm, image.sections).value;
    assert forall p :: p in each ==> p in MetadataPages(image, hashes, vmm).value;
  }

  /** Whether the table fits on the page the image reserves for it. */
  predicate TableFits(image: Image) {
    HashOffset(image).Success? ==> HashOffset(image).value + TABLE_SIZE <= PAGE
  }

  lemma HashesDetermined(image: Image, h: Option<SevHashes>, v: Vmm, h': Option<SevHashes>, v': Vmm)
    requires MetadataPages(image, h, v).Success?
    requires MetadataPages(image, h, v) == MetadataPages(image, h', v')
    ensures h.Some? <==> h'.Some?
    ensures TableFits(image) ==> h == h'
  {
    HashPages(image, h, v);
    HashPages(image, h', v');
    if h.Some? || h'.Some? {
      var ps := MetadataPages(image, h, v).value;
      var p :| p in ps && p.ptype.Normal?;
      assert IsHashPage(image, h, p) && IsHashPage(image, h', p);
      PageBindsHashes(HashOffset(image).value);
    }
  }

  // ---------- the CPUs ----------

  lemma CpuShape(image: Image, args: Args)
    requires CpuPages(image, args).Success?
    ensures OnlyVmsa(CpuPages(image, args).value) && AllValid(CpuPages(image, args).value)
    ensures image.ResetEip().Success?
    ensures |CpuPages(image, args).value| ==
            if args.vcpus == 0 then 0 else if image.ResetEip().value > 0 then args.vcpus else 1
  {
    var vmsa := SaveAreas.VmsaOf(image.ResetEip().value, args.features, args.cpuSig, args.VmmType(), Some(args.vcpus));
    SaveAreas.PagesShape(vmsa, args.vcpus);
    VmsaPagesAt(SaveAreas.Pages(vmsa, args.vcpus));
  }

  // ---------- the theorem ----------

  /** What equal CPU pages say about the guests. */
  predicate SameCpus(a: Args, b: Args) {
    && a.features == b.features
    && (a.VmmType().QEMU? <==> b.VmmType().QEMU?)
    && (a.VmmType().QEMU? ==> a.cpuSig == b.cpuSig)
  }

  function BootParams(args: Args): SaveAreas.Params {
    SaveAreas.Params(SaveAreas.BSP_EIP, args.features, args.cpuSig, args.VmmType(), Some(args.vcpus))
  }

  lemma BootPage(image: Image, args: Args)
    requires CpuPages(image, args).Success? && args.vcpus >= 1
    ensures var ps := CpuPages(image, args).value;
            |ps| >= 1 && ps[0].data == SaveAreas.PageOf(SaveAreas.ResetArea(BootParams(args)))
  {
    var vmsa := SaveAreas.VmsaOf(image.ResetEip().value, args.features, args.cpuSig, args.VmmType(), Some(args.vcpus));
    SaveAreas.PagesShape(vmsa, args.vcpus);
    VmsaPagesAt(SaveAreas.Pages(vmsa, args.vcpus));
  }

  lemma CpusDetermined(image: Image, a: Args, b: Args)
    requires CpuPages(image, a).Success? && CpuPages(image, a) == CpuPages(image, b)
    ensures a.vcpus == 0 <==> b.vcpus == 0
    ensures a.vcpus >= 1 ==> SameCpus(a, b)
    ensures image.ResetEip() != Success(0) ==> a.vcpus == b.vcpus
  {
    CpuShape(image, a);
    CpuShape(image, b);
    if a.vcpus >= 1 {
      BootPage(image, a);
      BootPage(image, b);
      SaveAreas.PageDetermines(BootParams(a), BootParams(b));
    }
  }

  lemma GuestDetermined(sha256: Sha256, image: Image, a: Args, b: Args)
    requires GuestPages(sha256, image, a).Success? && GuestPages(sha256, image, a) == GuestPages(sha256, image, b)
    ensures CpuPages(image, a) == CpuPages(image, b)
    ensures a.kernel.Some? <==> b.kernel.Some?
    ensures TableFits(image) ==> a.Hashes(sha256) == b.Hashes(sha256)
  {
    var ha, hb := a.Hashes(sha256), b.Hashes(sha256);
    MetadataShape(image, ha, a.VmmType());
    MetadataShape(image, hb, b.VmmType());
    CpuShape(image, a);
    CpuShape(image, b);
    SplitAtVmsa(MetadataPages(image, ha, a.VmmType()).value, CpuPages(image, a).value,
                MetadataPages(image, hb, b.VmmType()).value, CpuPages(image, b).value);
    HashesDetermined(image, ha, a.VmmType(), hb, b.VmmType());
  }

  lemma AllPagesValid(sha256: Sha256, args: Args)
    requires AllPages(sha256, args).Success?
    ensures AllValid(AllPages(sha256, args).value)
  {
    var image := ParseImage(args.ovmf).value;
    MetadataShape(image, args.Hashes(sha256), args.VmmType());
    CpuShape(image, args);
  }

  lemma ParsedData(data: Bytes)
    requires ParseImage(data).Success?
    ensures |data| > 0 && ParseImage(data).value.data == data
  {
  }

  /** What two launches with the same pages have in common. */
  ghost predicate SameLaunch(sha256: Sha256, a: Args, b: Args) {
    && a.ovmf == b.ovmf && ParseImage(a.ovmf).Success?
    && var image := ParseImage(a.ovmf).value;
       && CpuPages(image, a) == CpuPages(image, b)
       && (a.vcpus == 0 <==> b.vcpus == 0)
       && (a.vcpus >= 1 ==> SameCpus(a, b))
       && (image.ResetEip() != Success(0) ==> a.vcpus == b.vcpus)
       && (a.kernel.Some? <==> b.kernel.Some?)
       && (TableFits(image) ==> a.Hashes(sha256) == b.Hashes(sha256))
  }

  /** Two launches measured from the firmware up that have the same digest used the same
      firmware, the same CPU pages with the same guest features and, where the hash table fits
      on its page, the same kernel, initrd and command-line hashes.  Otherwise walking their
      pages yields two 112-byte structures or two 4096-byte pages with one SHA-384 hash, or a
      112-byte structure that hashes to all zeros. */
  lemma DigestBinding(sha384: Hash, sha256: Sha256, a: Args, b: Args)
    requires a.ovmfHash.None? && b.ovmfHash.None?
    requires Digest384(sha384, sha256, a).Success? && Digest384(sha384, sha256, a) == Digest384(sha384, sha256, b)
    ensures AllPages(sha256, a).Success? && AllPages(sha256, b).Success?
    ensures
      || SameLaunch(sha256, a, b)
      || (var e := PageEvidence(sha384, AllPages(sha256, a).value, AllPages(sha256, b).value);
          e.Breaks(sha384) && e.OnInfoOrPages())
  {
    DigestOfPages(sha384, sha256, a);
    DigestOfPages(sha384, sha256, b);
    var ps, qs := AllPages(sha256, a).value, AllPages(sha256, b).value;
    AllPagesValid(sha256, a);
    AllPagesValid(sha256, b);
    PageBinding(sha384, ps, qs);
    if ps == qs {
      SamePages(sha256, a, b);
    }
  }

  lemma SamePages(sha256: Sha256, a: Args, b: Args)
    requires AllPages(sha256, a).Success? && AllPages(sha256, a) == AllPages(sha256, b)
    ensures SameLaunch(sha256, a, b)
  {
    var ia, ib := ParseImage(a.ovmf).value, ParseImage(b.ovmf).value;
    ParsedData(a.ovmf);
    ParsedData(b.ovmf);
    FirmwareDetermined(ia, ib, GuestPages(sha256, ia, a).value, GuestPages(sha256, ib, b).value);
    GuestDetermined(sha256, ia, a, b);
    CpusDetermined(ia, a, b);
  }
}

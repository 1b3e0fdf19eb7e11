/** Initial register state (VMSA) pages of the virtual CPUs. */
module SaveAreas {
  import opened ByteStrings
  import opened Outcomes

  const BSP_EIP: U64 := 0xffff_fff0

  datatype Vmm = QEMU | EC2 | KRUN

  datatype Segment = Segment(selector: nat, attrib: nat, limit: nat, base: nat)

  const NO_SEGMENT := Segment(0, 0, 0, 0)

  /** The fields of `SevEsSaveArea` that are ever assigned; all others stay zero. */
  datatype Area = Area(
    es: Segment, cs: Segment, ss: Segment, ds: Segment, fs: Segment,
    gs: Segment, gdtr: Segment, ldtr: Segment, idtr: Segment, tr: Segment,
    efer: nat, cr4: nat, cr0: nat, dr7: nat, dr6: nat, rflags: nat, rip: nat, rsp: nat,
    gPat: nat, rdx: nat, rbp: nat, rsi: nat, sevFeatures: nat, xcr0: nat, mxcsr: nat, fcw: nat)

  const DEFAULT_AREA := Area(
    NO_SEGMENT, NO_SEGMENT, NO_SEGMENT, NO_SEGMENT, NO_SEGMENT,
    NO_SEGMENT, NO_SEGMENT, NO_SEGMENT, NO_SEGMENT, NO_SEGMENT,
    0, 0, 0, 0, 0, 0, 0, 0, 0, 0, 0, 0, 0, 0, 0, 0)

  // ---------- layout ----------

  /** A field of the save area, or a run of fields that stay zero. */
  datatype Slot = Word(value: nat, width: nat) | Gap(width: nat)

  function SegmentSlots(s: Segment): seq<Slot> {
    [Word(s.selector, 2), Word(s.attrib, 2), Word(s.limit, 4), Word(s.base, 8)]
  }

  function Segments(a: Area): seq<Segment> {
    [a.es, a.cs, a.ss, a.ds, a.fs, a.gs, a.gdtr, a.ldtr, a.idtr, a.tr]
  }

  function SegmentsLayout(segments: seq<Segment>): seq<Slot> {
    if segments == [] then [] else SegmentSlots(segments[0]) + SegmentsLayout(segments[1..])
  }

  function ControlLayout(a: Area): seq<Slot> {
    [Gap(48), Word(a.efer, 8), Gap(112), Word(a.cr4, 8)] +
    [Gap(8), Word(a.cr0, 8), Word(a.dr7, 8), Word(a.dr6, 8)] +
    [Word(a.rflags, 8), Word(a.rip, 8), Gap(88), Word(a.rsp, 8)]
  }

  function GeneralLayout(a: Area): seq<Slot> {
    [Gap(136), Word(a.gPat, 8), Gap(160), Word(a.rdx, 8)] +
    [Gap(16), Word(a.rbp, 8), Word(a.rsi, 8), Gap(120)] +
    [Word(a.sevFeatures, 8), Gap(48), Word(a.xcr0, 8), Gap(24)] +
    [Word(a.mxcsr, 4), Gap(4), Word(a.fcw, 2), Gap(3054)]
  }

  function Layout(a: Area): seq<Slot> {
    SegmentsLayout(Segments(a)) + ControlLayout(a) + GeneralLayout(a)
  }

  function SlotBytes(s: Slot): (b: Bytes)
    ensures |b| == s.width
  {
    match s
    case Word(v, w) => LeBytes(v, w)
    case Gap(w) => Zeros(w)
  }

  function Serialize(layout: seq<Slot>): Bytes {
    if layout == [] then [] else SlotBytes(layout[0]) + Serialize(layout[1..])
  }

  /** `bincode::serialize` of a save area: one VMSA page. */
  function PageOf(a: Area): (p: Bytes)
    ensures |p| == PAGE
  {
    LayoutIsPage(a);
    Serialize(Layout(a))
  }

  function Width(layout: seq<Slot>): nat {
    if layout == [] then 0 else layout[0].width + Width(layout[1..])
  }

  lemma {:induction false} SerializeWidth(layout: seq<Slot>)
    ensures |Serialize(layout)| == Width(layout)
  {
    if layout != [] { SerializeWidth(layout[1..]); }
  }

  lemma {:induction false} WidthAppend(a: seq<Slot>, b: seq<Slot>)
    ensures Width(a + b) == Width(a) + Width(b)
  {
    if a == [] {
      assert a + b == b;
    } else {
      assert (a + b)[1..] == a[1..] + b;
      WidthAppend(a[1..], b);
    }
  }

  lemma FourSlots(a: Slot, b: Slot, c: Slot, d: Slot)
    ensures Width([a, b, c, d]) == a.width + b.width + c.width + d.width
  {
    assert [d][1..] == [] && Width([d]) == d.width;
    assert [c, d][1..] == [d] && Width([c, d]) == c.width + d.width;
    assert [b, c, d][1..] == [c, d] && Width([b, c, d]) == b.width + c.width + d.width;
    assert [a, b, c, d][1..] == [b, c, d];
  }

  lemma {:induction false} SegmentsWidth(segments: seq<Segment>)
    ensures Width(SegmentsLayout(segments)) == 16 * |segments|
  {
    if segments != [] {
      var s := segments[0];
      FourSlots(Word(s.selector, 2), Word(s.attrib, 2), Word(s.limit, 4), Word(s.base, 8));
      SegmentsWidth(segments[1..]);
      WidthAppend(SegmentSlots(s), SegmentsLayout(segments[1..]));
    }
  }

  lemma ControlWidth(a: Area)
    ensures Width(ControlLayout(a)) == 320
  {
    var x: seq<Slot> := [Gap(48), Word(a.efer, 8), Gap(112), Word(a.cr4, 8)];
    var y: seq<Slot> := [Gap(8), Word(a.cr0, 8), Word(a.dr7, 8), Word(a.dr6, 8)];
    FourSlots(Gap(48), Word(a.efer, 8), Gap(112), Word(a.cr4, 8));
    FourSlots(Gap(8), Word(a.cr0, 8), Word(a.dr7, 8), Word(a.dr6, 8));
    FourSlots(Word(a.rflags, 8), Word(a.rip, 8), Gap(88), Word(a.rsp, 8));
    WidthAppend(x, y);
    WidthAppend(x + y, [Word(a.rflags, 8), Word(a.rip, 8), Gap(88), Word(a.rsp, 8)]);
  }

  lemma GeneralWidth(a: Area)
    ensures Width(GeneralLayout(a)) == 3616
  {
    var w: seq<Slot> := [Gap(136), Word(a.gPat, 8), Gap(160), Word(a.rdx, 8)];
    var x: seq<Slot> := [Gap(16), Word(a.rbp, 8), Word(a.rsi, 8), Gap(120)];
    var y: seq<Slot> := [Word(a.sevFeatures, 8), Gap(48), Word(a.xcr0, 8), Gap(24)];
    FourSlots(Gap(136), Word(a.gPat, 8), Gap(160), Word(a.rdx, 8));
    FourSlots(Gap(16), Word(a.rbp, 8), Word(a.rsi, 8), Gap(120));
    FourSlots(Word(a.sevFeatures, 8), Gap(48), Word(a.xcr0, 8), Gap(24));
    FourSlots(Word(a.mxcsr, 4), Gap(4), Word(a.fcw, 2), Gap(3054));
    WidthAppend(w, x);
    WidthAppend(w + x, y);
    WidthAppend(w + x + y, [Word(a.mxcsr, 4), Gap(4), Word(a.fcw, 2), Gap(3054)]);
  }

  /** The layout fills exactly one page. */
  lemma LayoutIsPage(a: Area)
    ensures |Serialize(Layout(a))| == PAGE
  {
    var segments := SegmentsLayout(Segments(a));
    SegmentsWidth(Segments(a));
    ControlWidth(a);
    GeneralWidth(a);
    WidthAppend(segments, ControlLayout(a));
    WidthAppend(segments + ControlLayout(a), GeneralLayout(a));
    SerializeWidth(Layout(a));
  }

  // ---------- building the area ----------

  datatype Params = Params(eip: U64, features: U64, cpuSig: U64, vmm: Vmm, cpuNum: Option<U64>)

  /** `eip & 0xffff0000` and `eip & 0xffff`. */
  function High(eip: U64): nat { eip / 0x1_0000 % 0x1_0000 * 0x1_0000 }

  function Low(eip: U64): nat { eip % 0x1_0000 }

  /** KRUN prepares stack and boot-parameter registers unless CPUs are counted. */
  predicate KrunBoot(p: Params) {
    p.vmm.KRUN? && (p.cpuNum.None? || p.cpuNum.value == 0)
  }

  /** The registers of a CPU at reset. */
  function ResetArea(p: Params): Area {
    var qemu, boot := p.vmm.QEMU?, KrunBoot(p);
    var data := Segment(0, 0x93, 0xffff, 0);
    Area(
      data,
      Segment(0xf000, if qemu || (p.vmm.EC2? && p.eip != BSP_EIP) then 0x9b else 0x9a, 0xffff, High(p.eip)),
      Segment(0, if qemu then 0x93 else 0x92, 0xffff, 0),
      data, data, data,
      Segment(0, 0, 0xffff, 0), Segment(0, 0x82, 0xffff, 0), Segment(0, 0, 0xffff, 0),
      Segment(0, if qemu then 0x8b else 0x83, 0xffff, 0),
      0x1000, 0x40, 0x10, 0x400, 0xffff_0ff0, 0x2, Low(p.eip), if boot then 0x8ff0 else 0,
      0x7_0406_0007_0406, if qemu then p.cpuSig else 0,
      if boot then 0x8ff0 else 0, if boot then 0x7000 else 0,
      p.features, 0x1, if qemu then 0x1f80 else 0, if qemu then 0x37f else 0)
  }

  /** `build_save_area`: later assignments overwrite what the KRUN branch puts into the code
      segment and the instruction pointer. */
  method BuildSaveArea(p: Params) returns (area: Area)
    ensures area == ResetArea(p)
  {
    area := DEFAULT_AREA;
    var csFlags, ssFlags, trFlags, rdx, mxcsr, fcw;
    match p.vmm {
      case QEMU =>
        csFlags, ssFlags, trFlags, rdx, mxcsr, fcw := 0x9b, 0x93, 0x8b, p.cpuSig, 0x1f80, 0x37f;
      case EC2 =>
        csFlags := if p.eip == 0xffff_fff0 then 0x9a else 0x9b;
        ssFlags, trFlags, rdx, mxcsr, fcw := 0x92, 0x83, 0, 0, 0;
      case KRUN =>
        if p.cpuNum.Some? && p.cpuNum.value > 0 {
          area := area.(rip := 0, rsp := 0, rbp := 0, rsi := 0);
          area := area.(cs := area.cs.(selector := 0x9100, base := 0x9_1000));
        } else {
          area := area.(rsi := 0x7000, rbp := 0x8ff0, rsp := 0x8ff0);
        }
        csFlags, ssFlags, trFlags, rdx, mxcsr, fcw := 0x9a, 0x92, 0x83, 0, 0, 0;
    }
    area := area.(es := Segment(0, 0x93, 0xffff, 0));
    area := area.(cs := Segment(0xf000, csFlags, 0xffff, High(p.eip)));
    area := area.(ss := Segment(0, ssFlags, 0xffff, 0));
    area := area.(ds := Segment(0, 0x93, 0xffff, 0));
    area := area.(fs := Segment(0, 0x93, 0xffff, 0));
    area := area.(gs := Segment(0, 0x93, 0xffff, 0));
    area := area.(gdtr := Segment(0, 0, 0xffff, 0));
    area := area.(idtr := Segment(0, 0, 0xffff, 0));
    area := area.(ldtr := Segment(0, 0x82, 0xffff, 0));
    area := area.(tr := Segment(0, trFlags, 0xffff, 0));
    area := area.(efer := 0x1000, cr4 := 0x40, cr0 := 0x10, dr7 := 0x400, dr6 := 0xffff_0ff0);
    area := area.(rflags := 0x2, rip := Low(p.eip), gPat := 0x7_0406_0007_0406, rdx := rdx);
    area := area.(sevFeatures := p.features, xcr0 := 0x1, mxcsr := mxcsr, fcw := fcw);
  }

  /** The code segment base and instruction pointer together are the start address, exactly
      when it is a 32-bit address; the base is a multiple of 64 KiB. */
  lemma StartAddress(p: Params)
    ensures ResetArea(p).cs.base % 0x1_0000 == 0 && ResetArea(p).rip < 0x1_0000
    ensures ResetArea(p).cs.base + ResetArea(p).rip == p.eip % 0x1_0000_0000
    ensures ResetArea(p).cs.base + ResetArea(p).rip == p.eip <==> p.eip < 0x1_0000_0000
  {
    var hi, lo := p.eip / 0x1_0000, p.eip % 0x1_0000;
    assert p.eip == hi * 0x1_0000 + lo;
    if p.eip < 0x1_0000_0000 {
      assert hi % 0x1_0000 == hi;
    }
  }

  lemma {:induction false} SerializeAppend(a: seq<Slot>, b: seq<Slot>)
    ensures Serialize(a + b) == Serialize(a) + Serialize(b)
  {
    if a == [] {
      assert a + b == b;
    } else {
      assert (a + b)[1..] == a[1..] + b;
      SerializeAppend(a[1..], b);
    }
  }

  /** A slot can be read back at the width of what precedes it. */
  lemma SlotAt(pre: seq<Slot>, s: Slot, post: seq<Slot>)
    ensures var at, bytes := Width(pre), Serialize(pre + [s] + post);
            at + s.width <= |bytes| && bytes[at..at + s.width] == SlotBytes(s)
  {
    SerializeAppend(pre + [s], post);
    SerializeAppend(pre, [s]);
    SerializeWidth(pre);
    assert Serialize([s]) == SlotBytes(s);
    SliceMiddle(Serialize(pre), SlotBytes(s), Serialize(post));
  }

  lemma FourGroup(pre: seq<Slot>, a: Slot, b: Slot, c: Slot, d: Slot, post: seq<Slot>)
    ensures var all := pre + [a, b, c, d] + post;
            && all == pre + [a] + ([b, c, d] + post) && all == (pre + [a]) + [b] + ([c, d] + post)
            && all == (pre + [a] + [b]) + [c] + ([d] + post) && all == (pre + [a] + [b] + [c]) + [d] + post
  {
  }

  lemma OneMore(pre: seq<Slot>, s: Slot)
    ensures Width(pre + [s]) == Width(pre) + s.width
  {
    WidthAppend(pre, [s]);
    assert Width([s]) == s.width;
  }

  /** Four slots in a row. */
  lemma FourAt(pre: seq<Slot>, a: Slot, b: Slot, c: Slot, d: Slot, post: seq<Slot>)
    ensures var s := Serialize(pre + [a, b, c, d] + post);
            var h := Width(pre);
            var i, j, k, l := h + a.width, h + a.width + b.width, h + a.width + b.width + c.width,
                              h + a.width + b.width + c.width + d.width;
            && l <= |s|
            && s[h..i] == SlotBytes(a) && s[i..j] == SlotBytes(b) && s[j..k] == SlotBytes(c) && s[k..l] == SlotBytes(d)
  {
    FourGroup(pre, a, b, c, d, post);
    OneMore(pre, a);
    OneMore(pre + [a], b);
    OneMore(pre + [a] + [b], c);
    SlotAt(pre, a, [b, c, d] + post);
    SlotAt(pre + [a], b, [c, d] + post);
    SlotAt(pre + [a] + [b], c, [d] + post);
    SlotAt(pre + [a] + [b] + [c], d, post);
  }

  /** A segment on a page: selector, attributes, limit, base. */
  predicate SegmentAt(page: Bytes, at: nat, s: Segment) {
    && at + 16 <= |page|
    && page[at..at + 2] == LeBytes(s.selector, 2) && page[at + 2..at + 4] == LeBytes(s.attrib, 2)
    && page[at + 4..at + 8] == LeBytes(s.limit, 4) && page[at + 8..at + 16] == LeBytes(s.base, 8)
  }

  lemma {:induction false} NthSegment(segments: seq<Segment>, i: nat, rest: seq<Slot>)
    requires i < |segments|
    ensures SegmentsLayout(segments) + rest ==
            SegmentsLayout(segments[..i]) + SegmentSlots(segments[i]) + (SegmentsLayout(segments[i + 1..]) + rest)
  {
    var head, tail := SegmentSlots(segments[0]), segments[1..];
    if i > 0 {
      NthSegment(tail, i - 1, rest);
      assert segments[..i][1..] == tail[..i - 1] && segments[i + 1..] == tail[i..];
      assert SegmentsLayout(segments) + rest == head + (SegmentsLayout(tail) + rest);
      Assoc(head, SegmentsLayout(tail[..i - 1]), SegmentSlots(segments[i]));
      Assoc(head, SegmentsLayout(tail[..i - 1]) + SegmentSlots(segments[i]), SegmentsLayout(segments[i + 1..]) + rest);
    } else {
      Assoc(head, SegmentsLayout(tail), rest);
    }
  }

  lemma SegmentOnPage(a: Area, i: nat)
    requires i < 10
    ensures SegmentAt(PageOf(a), 16 * i, Segments(a)[i])
  {
    var ss, rest := Segments(a), ControlLayout(a) + GeneralLayout(a);
    var s := ss[i];
    Assoc(SegmentsLayout(ss), ControlLayout(a), GeneralLayout(a));
    NthSegment(ss, i, rest);
    SegmentsWidth(ss[..i]);
    FourAt(SegmentsLayout(ss[..i]), Word(s.selector, 2), Word(s.attrib, 2), Word(s.limit, 4), Word(s.base, 8),
           SegmentsLayout(ss[i + 1..]) + rest);
  }

  lemma Three<T>(s: seq<T>, x: seq<T>, y: seq<T>, z: seq<T>, g: seq<T>)
    ensures s + (x + y + z) + g == s + x + (y + z + g)
    ensures s + (x + y + z) + g == s + x + y + (z + g)
    ensures s + (x + y + z) + g == s + x + y + z + g
  {
    Assoc(s, x + y, z);
    Assoc(s, x, y);
    Assoc(s + x + y, z, g);
    Assoc(s + x, y, z + g);
    Assoc(y, z, g);
  }

  /** Where the control registers, flags and pointers are; what is between them is zero. */
  lemma ControlOnPage(a: Area)
    ensures var page := PageOf(a);
            && page[0xa0..0xd0] == Zeros(48) && page[0xd0..0xd8] == LeBytes(a.efer, 8)
            && page[0xd8..0x148] == Zeros(112) && page[0x148..0x150] == LeBytes(a.cr4, 8)
            && page[0x150..0x158] == Zeros(8) && page[0x158..0x160] == LeBytes(a.cr0, 8)
            && page[0x160..0x168] == LeBytes(a.dr7, 8) && page[0x168..0x170] == LeBytes(a.dr6, 8)
            && page[0x170..0x178] == LeBytes(a.rflags, 8) && page[0x178..0x180] == LeBytes(a.rip, 8)
            && page[0x180..0x1d8] == Zeros(88) && page[0x1d8..0x1e0] == LeBytes(a.rsp, 8)
  {
    var s, g := SegmentsLayout(Segments(a)), GeneralLayout(a);
    var x: seq<Slot> := [Gap(48), Word(a.efer, 8), Gap(112), Word(a.cr4, 8)];
    var y: seq<Slot> := [Gap(8), Word(a.cr0, 8), Word(a.dr7, 8), Word(a.dr6, 8)];
    var z: seq<Slot> := [Word(a.rflags, 8), Word(a.rip, 8), Gap(88), Word(a.rsp, 8)];
    SegmentsWidth(Segments(a));
    FourSlots(Gap(48), Word(a.efer, 8), Gap(112), Word(a.cr4, 8));
    FourSlots(Gap(8), Word(a.cr0, 8), Word(a.dr7, 8), Word(a.dr6, 8));
    WidthAppend(s, x);
    WidthAppend(s + x, y);
    Three(s, x, y, z, g);
    FourAt(s, Gap(48), Word(a.efer, 8), Gap(112), Word(a.cr4, 8), y + z + g);
    FourAt(s + x, Gap(8), Word(a.cr0, 8), Word(a.dr7, 8), Word(a.dr6, 8), z + g);
    FourAt(s + x + y, Word(a.rflags, 8), Word(a.rip, 8), Gap(88), Word(a.rsp, 8), g);
  }

  lemma HeadWidth(a: Area)
    ensures Width(SegmentsLayout(Segments(a)) + ControlLayout(a)) == 480
  {
    SegmentsWidth(Segments(a));
    ControlWidth(a);
    WidthAppend(SegmentsLayout(Segments(a)), ControlLayout(a));
  }

  /** Where the general registers are. */
  lemma GeneralOnPage(a: Area)
    ensures var page := PageOf(a);
            && page[0x1e0..0x268] == Zeros(136) && page[0x268..0x270] == LeBytes(a.gPat, 8)
            && page[0x270..0x310] == Zeros(160) && page[0x310..0x318] == LeBytes(a.rdx, 8)
            && page[0x318..0x328] == Zeros(16) && page[0x328..0x330] == LeBytes(a.rbp, 8)
            && page[0x330..0x338] == LeBytes(a.rsi, 8) && page[0x338..0x3b0] == Zeros(120)
            && page[0x3b0..0x3b8] == LeBytes(a.sevFeatures, 8) && page[0x3b8..0x3e8] == Zeros(48)
            && page[0x3e8..0x3f0] == LeBytes(a.xcr0, 8) && page[0x3f0..0x408] == Zeros(24)
            && page[0x408..0x40c] == LeBytes(a.mxcsr, 4) && page[0x40c..0x410] == Zeros(4)
            && page[0x410..0x412] == LeBytes(a.fcw, 2) && page[0x412..0x1000] == Zeros(3054)
  {
    var h := SegmentsLayout(Segments(a)) + ControlLayout(a);
    var w: seq<Slot> := [Gap(136), Word(a.gPat, 8), Gap(160), Word(a.rdx, 8)];
    var x: seq<Slot> := [Gap(16), Word(a.rbp, 8), Word(a.rsi, 8), Gap(120)];
    var y: seq<Slot> := [Word(a.sevFeatures, 8), Gap(48), Word(a.xcr0, 8), Gap(24)];
    var z: seq<Slot> := [Word(a.mxcsr, 4), Gap(4), Word(a.fcw, 2), Gap(3054)];
    HeadWidth(a);
    FourSlots(Gap(136), Word(a.gPat, 8), Gap(160), Word(a.rdx, 8));
    FourSlots(Gap(16), Word(a.rbp, 8), Word(a.rsi, 8), Gap(120));
    FourSlots(Word(a.sevFeatures, 8), Gap(48), Word(a.xcr0, 8), Gap(24));
    WidthAppend(h, w);
    WidthAppend(h + w, x);
    WidthAppend(h + w + x, y);
    Assoc(h, w + x + y, z);
    Three(h, w, x, y, z);
    assert Layout(a) + [] == Layout(a);
    FourAt(h, Gap(136), Word(a.gPat, 8), Gap(160), Word(a.rdx, 8), x + y + z);
    FourAt(h + w, Gap(16), Word(a.rbp, 8), Word(a.rsi, 8), Gap(120), y + z);
    FourAt(h + w + x, Word(a.sevFeatures, 8), Gap(48), Word(a.xcr0, 8), Gap(24), z);
    FourAt(h + w + x + y, Word(a.mxcsr, 4), Gap(4), Word(a.fcw, 2), Gap(3054), []);
  }

  /** The page of the boot processor tells the guest features, whether the hypervisor is QEMU,
      and on QEMU the CPU signature. */
  lemma PageDetermines(p: Params, q: Params)
    requires p.eip == BSP_EIP && q.eip == BSP_EIP && PageOf(ResetArea(p)) == PageOf(ResetArea(q))
    ensures p.features == q.features
    ensures p.vmm.QEMU? <==> q.vmm.QEMU?
    ensures p.vmm.QEMU? ==> p.cpuSig == q.cpuSig
  {
    var a, b := ResetArea(p), ResetArea(q);
    GeneralOnPage(a);
    GeneralOnPage(b);
    SegmentOnPage(a, 1);
    SegmentOnPage(b, 1);
    Powers();
    LeInjective(a.sevFeatures, b.sevFeatures, 8);
    LeInjective(a.cs.attrib, b.cs.attrib, 2);
    LeInjective(a.rdx, b.rdx, 8);
  }

  /** A CPU started from its page starts at the address it was built for: the code segment
      base is at offset 0x18 and the instruction pointer at 0x178. */
  lemma StartOnPage(p: Params)
    requires p.eip < 0x1_0000_0000
    ensures var page := PageOf(ResetArea(p));
            LeValue(page[0x18..0x20]) + LeValue(page[0x178..0x180]) == p.eip
  {
    var a := ResetArea(p);
    SegmentOnPage(a, 1);
    ControlOnPage(a);
    StartAddress(p);
    Powers();
    LeValueOfBytes(a.cs.base, 8);
    LeValueOfBytes(a.rip, 8);
  }

  predicate ValueAt(page: Bytes, at: nat, width: nat, v: nat) {
    at + width <= |page| && LeValue(page[at..at + width]) == v
  }

  /** A segment on a page, by its numbers. */
  predicate Reads(page: Bytes, at: nat, selector: nat, attrib: nat, limit: nat, base: nat) {
    && ValueAt(page, at, 2, selector) && ValueAt(page, at + 2, 2, attrib)
    && ValueAt(page, at + 4, 4, limit) && ValueAt(page, at + 8, 8, base)
  }

  lemma SegmentReads(page: Bytes, at: nat, s: Segment)
    requires SegmentAt(page, at, s)
    requires s.selector < 0x1_0000 && s.attrib < 0x1_0000 && s.limit < 0x1_0000_0000 && s.base < U64_LIMIT
    ensures Reads(page, at, s.selector, s.attrib, s.limit, s.base)
  {
    Powers();
    LeValueOfBytes(s.selector, 2);
    LeValueOfBytes(s.attrib, 2);
    LeValueOfBytes(s.limit, 4);
    LeValueOfBytes(s.base, 8);
  }

  lemma ResetSegment(p: Params, i: nat, s: Segment)
    requires i < 10 && s == Segments(ResetArea(p))[i]
    ensures Reads(PageOf(ResetArea(p)), 16 * i, s.selector, s.attrib, s.limit, s.base)
  {
    SegmentOnPage(ResetArea(p), i);
    SegmentReads(PageOf(ResetArea(p)), 16 * i, s);
  }

  /** The segments of the reset page: ES to TR, sixteen bytes each. */
  lemma ResetSegments(p: Params)
    ensures var page, qemu := PageOf(ResetArea(p)), p.vmm == QEMU;
            && Reads(page, 0x00, 0, 0x93, 0xffff, 0)
            && Reads(page, 0x10, 0xf000, CodeAttributes(p), 0xffff, p.eip / 0x1_0000 % 0x1_0000 * 0x1_0000)
            && Reads(page, 0x20, 0, if qemu then 0x93 else 0x92, 0xffff, 0)
            && Reads(page, 0x30, 0, 0x93, 0xffff, 0) && Reads(page, 0x40, 0, 0x93, 0xffff, 0)
            && Reads(page, 0x50, 0, 0x93, 0xffff, 0) && Reads(page, 0x60, 0, 0, 0xffff, 0)
            && Reads(page, 0x70, 0, 0x82, 0xffff, 0) && Reads(page, 0x80, 0, 0, 0xffff, 0)
            && Reads(page, 0x90, 0, if qemu then 0x8b else 0x83, 0xffff, 0)
  {
    var a := ResetArea(p);
    ResetSegment(p, 0, a.es);
    ResetSegment(p, 1, a.cs);
    ResetSegment(p, 2, a.ss);
    ResetSegment(p, 3, a.ds);
    ResetSegment(p, 4, a.fs);
    ResetSegment(p, 5, a.gs);
    ResetSegment(p, 6, a.gdtr);
    ResetSegment(p, 7, a.ldtr);
    ResetSegment(p, 8, a.idtr);
    ResetSegment(p, 9, a.tr);
  }

  /** QEMU sets the accessed bit of the code segment; EC2 does for every CPU but one that
      starts at 0xfffffff0. */
  function CodeAttributes(p: Params): nat {
    match p.vmm
    case QEMU => 0x9b
    case EC2 => if p.eip == 0xffff_fff0 then 0x9a else 0x9b
    case KRUN => 0x9a
  }

  lemma Value(page: Bytes, at: nat, width: nat, v: nat)
    requires at + width <= |page| && page[at..at + width] == LeBytes(v, width)
    requires v < Pow256(width)
    ensures ValueAt(page, at, width, v)
  {
    LeValueOfBytes(v, width);
  }

  lemma ControlReads(a: Area)
    requires a.efer < U64_LIMIT && a.cr4 < U64_LIMIT && a.cr0 < U64_LIMIT && a.dr7 < U64_LIMIT
    requires a.dr6 < U64_LIMIT && a.rflags < U64_LIMIT && a.rip < U64_LIMIT && a.rsp < U64_LIMIT
    ensures var page := PageOf(a);
            && ValueAt(page, 0xd0, 8, a.efer) && ValueAt(page, 0x148, 8, a.cr4) && ValueAt(page, 0x158, 8, a.cr0)
            && ValueAt(page, 0x160, 8, a.dr7) && ValueAt(page, 0x168, 8, a.dr6)
            && ValueAt(page, 0x170, 8, a.rflags) && ValueAt(page, 0x178, 8, a.rip) && ValueAt(page, 0x1d8, 8, a.rsp)
  {
    var page := PageOf(a);
    ControlOnPage(a);
    Powers();
    Value(page, 0xd0, 8, a.efer);
    Value(page, 0x148, 8, a.cr4);
    Value(page, 0x158, 8, a.cr0);
    Value(page, 0x160, 8, a.dr7);
    Value(page, 0x168, 8, a.dr6);
    Value(page, 0x170, 8, a.rflags);
    Value(page, 0x178, 8, a.rip);
    Value(page, 0x1d8, 8, a.rsp);
  }

  lemma GeneralReads(a: Area)
    requires a.gPat < U64_LIMIT && a.rdx < U64_LIMIT && a.rbp < U64_LIMIT && a.rsi < U64_LIMIT
    requires a.sevFeatures < U64_LIMIT && a.xcr0 < U64_LIMIT && a.mxcsr < 0x1_0000_0000 && a.fcw < 0x1_0000
    ensures var page := PageOf(a);
            && ValueAt(page, 0x268, 8, a.gPat) && ValueAt(page, 0x310, 8, a.rdx) && ValueAt(page, 0x328, 8, a.rbp)
            && ValueAt(page, 0x330, 8, a.rsi) && ValueAt(page, 0x3b0, 8, a.sevFeatures)
            && ValueAt(page, 0x3e8, 8, a.xcr0) && ValueAt(page, 0x408, 4, a.mxcsr) && ValueAt(page, 0x410, 2, a.fcw)
  {
    var page := PageOf(a);
    GeneralOnPage(a);
    Powers();
    Value(page, 0x268, 8, a.gPat);
    Value(page, 0x310, 8, a.rdx);
    Value(page, 0x328, 8, a.rbp);
    Value(page, 0x330, 8, a.rsi);
    Value(page, 0x3b0, 8, a.sevFeatures);
    Value(page, 0x3e8, 8, a.xcr0);
    Value(page, 0x408, 4, a.mxcsr);
    Value(page, 0x410, 2, a.fcw);
  }

  /** The control registers of the reset page, by offset. */
  lemma ResetRegisters(p: Params)
    ensures var page := PageOf(ResetArea(p));
            var boot := p.vmm == KRUN && (p.cpuNum.None? || p.cpuNum.value == 0);
            && ValueAt(page, 0xd0, 8, 0x1000) && ValueAt(page, 0x148, 8, 0x40) && ValueAt(page, 0x158, 8, 0x10)
            && ValueAt(page, 0x160, 8, 0x400) && ValueAt(page, 0x168, 8, 0xffff_0ff0)
            && ValueAt(page, 0x170, 8, 0x2) && ValueAt(page, 0x178, 8, p.eip % 0x1_0000)
            && ValueAt(page, 0x1d8, 8, if boot then 0x8ff0 else 0)
  {
    ControlReads(ResetArea(p));
  }

  /** The general registers of the reset page, by offset. */
  lemma ResetGeneral(p: Params)
    ensures var page, qemu := PageOf(ResetArea(p)), p.vmm == QEMU;
            var boot := p.vmm == KRUN && (p.cpuNum.None? || p.cpuNum.value == 0);
            && ValueAt(page, 0x268, 8, 0x7_0406_0007_0406) && ValueAt(page, 0x310, 8, if qemu then p.cpuSig else 0)
            && ValueAt(page, 0x328, 8, if boot then 0x8ff0 else 0) && ValueAt(page, 0x330, 8, if boot then 0x7000 else 0)
            && ValueAt(page, 0x3b0, 8, p.features) && ValueAt(page, 0x3e8, 8, 1)
            && ValueAt(page, 0x408, 4, if qemu then 0x1f80 else 0) && ValueAt(page, 0x410, 2, if qemu then 0x37f else 0)
  {
    GeneralReads(ResetArea(p));
  }

  // ---------- the pages ----------

  datatype Vmsa = Vmsa(bsp: Area, ap: Option<Area>)

  method NewVmsa(apEip: U64, features: U64, cpuSig: U64, vmm: Vmm, cpuNum: Option<U64>) returns (v: Vmsa)
    ensures v == VmsaOf(apEip, features, cpuSig, vmm, cpuNum)
  {
    var bsp := BuildSaveArea(Params(BSP_EIP, features, cpuSig, vmm, cpuNum));
    var ap: Option<Area> := None;
    if apEip > 0 {
      var area := BuildSaveArea(Params(apEip, features, cpuSig, vmm, cpuNum));
      ap := Some(area);
    }
    v := Vmsa(bsp, ap);
  }

  function VmsaOf(apEip: U64, features: U64, cpuSig: U64, vmm: Vmm, cpuNum: Option<U64>): Vmsa {
    Vmsa(ResetArea(Params(BSP_EIP, features, cpuSig, vmm, cpuNum)),
         if apEip > 0 then Some(ResetArea(Params(apEip, features, cpuSig, vmm, cpuNum))) else None)
  }

  /** How many CPUs there are does not matter to their state, once there is one. */
  lemma CountIrrelevant(apEip: U64, features: U64, cpuSig: U64, vmm: Vmm, n: U64)
    requires 1 <= n && n + 1 < U64_LIMIT
    ensures VmsaOf(apEip, features, cpuSig, vmm, Some(n + 1)) == VmsaOf(apEip, features, cpuSig, vmm, Some(n))
  {
  }

  /** The page of CPU `i`. */
  function CpuPages(v: Vmsa, i: nat): seq<Bytes> {
    if i == 0 then [PageOf(v.bsp)] else if v.ap.Some? then [PageOf(v.ap.value)] else []
  }

  function Pages(v: Vmsa, vcpus: nat): seq<Bytes> {
    if vcpus == 0 then [] else Pages(v, vcpus - 1) + CpuPages(v, vcpus - 1)
  }

  method BuildPages(v: Vmsa, vcpus: nat) returns (pages: seq<Bytes>)
    ensures pages == Pages(v, vcpus)
  {
    var bspPage := PageOf(v.bsp);
    var apPage: Option<Bytes> := if v.ap.Some? then Some(PageOf(v.ap.value)) else None;
    pages := [];
    for i := 0 to vcpus
      invariant pages == Pages(v, i)
    {
      if i == 0 {
        pages := pages + [bspPage];
      } else if apPage.Some? {
        pages := pages + [apPage.value];
      }
      assert v.ap.None? && i > 0 ==> pages + [] == pages;
    }
  }

  /** What every CPU page says: features, signature on QEMU, and where the CPU starts, which is
      the reset vector for the boot processor and the given address for all others. */
  lemma CpuPageReads(apEip: U64, features: U64, cpuSig: U64, vmm: Vmm, cpuNum: Option<U64>, n: nat, i: nat)
    requires apEip < 0x1_0000_0000 && i < |Pages(VmsaOf(apEip, features, cpuSig, vmm, cpuNum), n)|
    ensures var page := Pages(VmsaOf(apEip, features, cpuSig, vmm, cpuNum), n)[i];
            && ValueAt(page, 0x3b0, 8, features) && ValueAt(page, 0x310, 8, if vmm == QEMU then cpuSig else 0)
            && |page| == 4096
            && LeValue(page[0x18..0x20]) + LeValue(page[0x178..0x180]) == (if i == 0 then 0xffff_fff0 else apEip)
            && ValueAt(page, 0x330, 8, if vmm == KRUN && (cpuNum.None? || cpuNum.value == 0) then 0x7000 else 0)
  {
    PagesShape(VmsaOf(apEip, features, cpuSig, vmm, cpuNum), n);
    var p := Params(if i == 0 then 0xffff_fff0 else apEip, features, cpuSig, vmm, cpuNum);
    ResetGeneral(p);
    StartOnPage(p);
  }

  /** One boot-processor page, then one page for every other CPU, or none without a start
      address; all of page size. */
  lemma {:induction false} PagesShape(v: Vmsa, vcpus: nat)
    ensures |Pages(v, vcpus)| == if vcpus == 0 then 0 else if v.ap.Some? then vcpus else 1
    ensures forall i :: 0 <= i < |Pages(v, vcpus)| ==>
              |Pages(v, vcpus)[i]| == PAGE &&
              Pages(v, vcpus)[i] == if i == 0 then PageOf(v.bsp) else if v.ap.Some? then PageOf(v.ap.value) else []
  {
    if vcpus > 0 { PagesShape(v, vcpus - 1); }
  }
}

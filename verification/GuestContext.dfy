/** The SNP launch digest: a SHA-384 chain over PAGE_INFO records (SNP_LAUNCH_UPDATE,
    section 8.17 of the SEV Secure Nested Paging Firmware ABI, AMD publication 56860).

    SHA-384 is an arbitrary function to 48 bytes; nothing is assumed about it. */
module GuestContext {
  import opened ByteStrings
  import opened Outcomes

  const LD_SIZE := 48

  type Digest = s: Bytes | |s| == LD_SIZE witness Zeros(LD_SIZE)
  type Hash = Bytes -> Digest

  const ZEROS: Digest := Zeros(LD_SIZE)
  const VMSA_GPA: U64 := 0xFFFFFFFFF000

  datatype PageType = Normal | Vmsa | Zero | Unmeasured | Secrets | Cpuid {
    function Code(): Byte {
      match this
      case Normal => 1
      case Vmsa => 2
      case Zero => 3
      case Unmeasured => 4
      case Secrets => 5
      case Cpuid => 6
    }
  }

  datatype GctxError =
    | InvalidBlockSize
    | InvalidPageSize(actual: nat, expected: nat)
    | MissingData
    | MissingBlockSize

  // ---------- records and pages ----------

  /** What one update adds to the digest. */
  datatype Record = Record(ptype: PageType, gpa: U64, contents: Digest)

  /** The PAGE_INFO structure: digest, contents, length, type, is_imi, three VMPL
      permission bytes, a reserved byte and the guest physical address. */
  function PageInfo(ld: Bytes, code: Byte, gpa: U64, contents: Bytes): (s: Bytes)
    ensures |s| == |ld| + |contents| + 16
  {
    ld + contents + LeBytes(0x70, 2) + [code, 0] + [0, 0, 0, 0] + LeBytes(gpa, 8)
  }

  /** The PAGE_INFO structure byte by byte, as the firmware reads it. */
  predicate IsPageInfo(x: Bytes, ld: Bytes, contents: Bytes, code: int, gpa: int) {
    && |x| == 112
    && x[0..48] == ld && x[48..96] == contents
    && x[96] == 0x70 && x[97] == 0
    && x[98] == code && x[99] == 0
    && x[100] == 0 && x[101] == 0 && x[102] == 0 && x[103] == 0
    && LeValue(x[104..112]) == gpa
  }

  lemma InfoParts(a: Bytes, b: Bytes, c: Bytes, d: Bytes, e: Bytes, f: Bytes)
    requires |a| == 48 && |b| == 48 && |c| == 2 && |d| == 2 && |e| == 4 && |f| == 8
    ensures var x := a + b + c + d + e + f;
            && x[0..48] == a && x[48..96] == b && x[96] == c[0] && x[97] == c[1] && x[98] == d[0] && x[99] == d[1]
            && x[100] == e[0] && x[101] == e[1] && x[102] == e[2] && x[103] == e[3] && x[104..112] == f
  {
  }

  /** The structure that is hashed has its parts where the firmware expects them. */
  lemma InfoBytes(ld: Digest, code: Byte, gpa: U64, contents: Digest)
    ensures IsPageInfo(PageInfo(ld, code, gpa, contents), ld, contents, code, gpa)
  {
    InfoParts(ld, contents, LeBytes(0x70, 2), [code, 0], [0, 0, 0, 0], LeBytes(gpa, 8));
    assert LeBytes(0x70, 2) == [0x70, 0];
    Powers();
    LeValueOfBytes(gpa, 8);
  }

  function InfoOf(ld: Digest, r: Record): (s: Bytes)
    ensures |s| == 0x70
  {
    PageInfo(ld, r.ptype.Code(), r.gpa, r.contents)
  }

  /** The digest after a sequence of records. */
  function Extend(sha384: Hash, ld: Digest, records: seq<Record>): Digest
    decreases |records|
  {
    if records == [] then ld
    else sha384(InfoOf(Extend(sha384, ld, records[..|records|-1]), records[|records|-1]))
  }

  /** A page handed to the firmware; only normal and VMSA pages have measured contents. */
  datatype Page = Page(ptype: PageType, gpa: U64, data: Bytes) {
    predicate Valid() {
      match ptype
      case Normal => |data| == PAGE
      case Vmsa => true
      case _ => data == []
    }

    /** Measured contents are exactly one page, as in every launch; the context itself also
        takes longer VMSA contents. */
    predicate Single() {
      ptype.Normal? || ptype.Vmsa? ==> |data| == PAGE
    }

    function Measured(sha384: Hash): Record {
      Record(ptype, gpa, if ptype.Normal? || ptype.Vmsa? then sha384(data) else ZEROS)
    }
  }

  /** What measuring a page feeds to the hash: the type codes of the firmware interface, the
      hash of the contents of normal and VMSA pages, and zeros for all others. */
  predicate IsInfoOf(x: Bytes, sha384: Hash, ld: Digest, p: Page) {
    IsPageInfo(x, ld,
               if p.ptype.Normal? || p.ptype.Vmsa? then sha384(p.data) else Zeros(48),
               match p.ptype
               case Normal => 1
               case Vmsa => 2
               case Zero => 3
               case Unmeasured => 4
               case Secrets => 5
               case Cpuid => 6,
               p.gpa)
  }

  lemma MeasuredBytes(sha384: Hash, ld: Digest, p: Page)
    ensures IsInfoOf(InfoOf(ld, p.Measured(sha384)), sha384, ld, p)
  {
    var r := p.Measured(sha384);
    InfoBytes(ld, r.ptype.Code(), r.gpa, r.contents);
  }

  function Records(sha384: Hash, pages: seq<Page>): (rs: seq<Record>)
    ensures |rs| == |pages|
  {
    seq(|pages|, i requires 0 <= i < |pages| => pages[i].Measured(sha384))
  }

  /** The digest after a sequence of pages. */
  function Measure(sha384: Hash, ld: Digest, pages: seq<Page>): Digest {
    Extend(sha384, ld, Records(sha384, pages))
  }

  // ---------- the pages of one update ----------

  predicate Aligned(n: nat) { n % PAGE == 0 }

  /** No page address of the range leaves 64 bits. */
  predicate SpanFits(gpa: U64, len: nat) {
    Aligned(len) && len > 0 ==> gpa + len - PAGE < U64_LIMIT
  }

  lemma SpanBound(gpa: U64, len: nat, i: nat)
    requires Aligned(len) && SpanFits(gpa, len) && PAGE * i < len
    ensures gpa + PAGE * i < U64_LIMIT && PAGE * (i + 1) <= len
  {
    assert len == PAGE * (len / PAGE);
    assert i < len / PAGE;
  }

  function NormalPages(gpa: U64, data: Bytes): (ps: seq<Page>)
    requires Aligned(|data|) && SpanFits(gpa, |data|)
    ensures |ps| == |data| / PAGE
    ensures forall p :: p in ps ==> p.Valid()
  {
    seq(|data| / PAGE, i requires 0 <= i < |data| / PAGE =>
      SpanBound(gpa, |data|, i);
      Page(Normal, gpa + PAGE * i, data[PAGE * i..PAGE * (i + 1)]))
  }

  function ZeroPages(gpa: U64, len: nat): (ps: seq<Page>)
    requires Aligned(len) && SpanFits(gpa, len)
    ensures |ps| == len / PAGE
    ensures forall p :: p in ps ==> p.Valid()
  {
    seq(len / PAGE, i requires 0 <= i < len / PAGE =>
      SpanBound(gpa, len, i);
      Page(Zero, gpa + PAGE * i, []))
  }

  lemma NormalPageAt(gpa: U64, data: Bytes, i: nat)
    requires Aligned(|data|) && SpanFits(gpa, |data|) && PAGE * i < |data|
    ensures PAGE * i + PAGE <= |data| && gpa + PAGE * i < U64_LIMIT && i < |NormalPages(gpa, data)|
    ensures NormalPages(gpa, data)[i] == Page(Normal, gpa + PAGE * i, data[PAGE * i..PAGE * i + PAGE])
  {
    SpanBound(gpa, |data|, i);
  }

  lemma ZeroPageAt(gpa: U64, len: nat, i: nat)
    requires Aligned(len) && SpanFits(gpa, len) && PAGE * i < len
    ensures PAGE * i + PAGE <= len && gpa + PAGE * i < U64_LIMIT && i < |ZeroPages(gpa, len)|
    ensures ZeroPages(gpa, len)[i] == Page(Zero, gpa + PAGE * i, [])
  {
    SpanBound(gpa, len, i);
  }

  /** The range an update covers, for the purpose of address overflow. */
  function SpanOf(ptype: PageType, contents: Option<Bytes>, length: Option<nat>): nat {
    if ptype.Normal? && contents.Some? then |contents.value|
    else if ptype.Zero? && length.Some? then length.value
    else 0
  }

  /** The pages `update_page` measures, or the error it returns. */
  function PagesOf(ptype: PageType, gpa: U64, contents: Option<Bytes>, length: Option<nat>)
      : (r: Result<seq<Page>, GctxError>)
    requires SpanFits(gpa, SpanOf(ptype, contents, length))
    ensures r.Success? ==> forall p :: p in r.value ==> p.Valid()
  {
    match ptype
    case Normal =>
      if contents.None? then Failure(MissingData)
      else if !Aligned(|contents.value|) then Failure(InvalidBlockSize)
      else Success(NormalPages(gpa, contents.value))
    case Vmsa =>
      if contents.None? then Failure(MissingData)
      else if !Aligned(|contents.value|) then Failure(InvalidBlockSize)
      else Success([Page(Vmsa, VMSA_GPA, contents.value)])
    case Zero =>
      if length.None? then Failure(MissingBlockSize)
      else if !Aligned(length.value) then Failure(InvalidBlockSize)
      else Success(ZeroPages(gpa, length.value))
    case _ => Success([Page(ptype, gpa, [])])
  }

  lemma MeasureSnoc(sha384: Hash, ld: Digest, pages: seq<Page>, p: Page)
    ensures Measure(sha384, ld, pages + [p]) == sha384(InfoOf(Measure(sha384, ld, pages), p.Measured(sha384)))
  {
    var rs := Records(sha384, pages + [p]);
    assert rs[..|rs|-1] == Records(sha384, pages);
  }

  /** One link of the chain, by bytes: the digest after one more page is the hash of the
      structure that holds the digest before it. */
  lemma ChainLink(sha384: Hash, ld: Digest, pages: seq<Page>, p: Page)
    ensures Measure(sha384, ld, []) == ld
    ensures exists x :: IsInfoOf(x, sha384, Measure(sha384, ld, pages), p)
              && Measure(sha384, ld, pages + [p]) == sha384(x)
  {
    MeasureSnoc(sha384, ld, pages, p);
    MeasuredBytes(sha384, Measure(sha384, ld, pages), p);
    assert Records(sha384, []) == [];
  }

  /** Which pages one update measures, and its errors: normal pages and zero pages of 4096
      bytes at ascending addresses, a VMSA page at its fixed address whatever address is given,
      and one page without contents for the other types. */
  lemma PagesExact(ptype: PageType, gpa: U64, contents: Option<Bytes>, length: Option<nat>)
    requires SpanFits(gpa, SpanOf(ptype, contents, length))
    ensures var r := PagesOf(ptype, gpa, contents, length);
            match ptype
            case Normal =>
              (match contents
               case None => r == Failure(MissingData)
               case Some(data) =>
                 if |data| % 4096 != 0 then r == Failure(InvalidBlockSize)
                 else
                   && r.Success? && 4096 * |r.value| == |data|
                   && forall i {:trigger r.value[i]} :: 0 <= i < |r.value| ==>
                        && r.value[i].ptype == Normal && r.value[i].gpa == gpa + 4096 * i
                        && 4096 * i + 4096 <= |data| && r.value[i].data == data[4096 * i..4096 * i + 4096])
            case Vmsa =>
              (match contents
               case None => r == Failure(MissingData)
               case Some(data) =>
                 r == if |data| % 4096 != 0 then Failure(InvalidBlockSize)
                      else Success([Page(Vmsa, 0xFFFF_FFFF_F000, data)]))
            case Zero =>
              (match length
               case None => r == Failure(MissingBlockSize)
               case Some(n) =>
                 if n % 4096 != 0 then r == Failure(InvalidBlockSize)
                 else
                   && r.Success? && 4096 * |r.value| == n
                   && forall i {:trigger r.value[i]} :: 0 <= i < |r.value| ==>
                        r.value[i].ptype == Zero && r.value[i].gpa == gpa + 4096 * i && r.value[i].data == [])
            case _ => r == Success([Page(ptype, gpa, [])])
  {
    if ptype.Normal? && contents.Some? && |contents.value| % 4096 == 0 {
      var data := contents.value;
      forall i | 0 <= i < |NormalPages(gpa, data)|
        ensures 4096 * i + 4096 <= |data| && gpa + 4096 * i < U64_LIMIT
        ensures NormalPages(gpa, data)[i] == Page(Normal, gpa + 4096 * i, data[4096 * i..4096 * i + 4096])
      {
        NormalPageAt(gpa, data, i);
      }
    }
  }

  lemma NextPage(sha384: Hash, ld: Digest, pages: seq<Page>, i: nat)
    requires i < |pages|
    ensures Measure(sha384, ld, pages[..i + 1]) ==
            sha384(InfoOf(Measure(sha384, ld, pages[..i]), pages[i].Measured(sha384)))
  {
    assert pages[..i + 1] == pages[..i] + [pages[i]];
    MeasureSnoc(sha384, ld, pages[..i], pages[i]);
  }

  /** Measuring a concatenation is measuring its parts in turn. */
  lemma {:induction false} MeasureAppend(sha384: Hash, ld: Digest, a: seq<Page>, b: seq<Page>)
    ensures Measure(sha384, ld, a + b) == Measure(sha384, Measure(sha384, ld, a), b)
    decreases |b|
  {
    if b == [] {
      assert a + b == a && Records(sha384, b) == [];
    } else {
      var front, p := b[..|b|-1], b[|b|-1];
      assert b == front + [p];
      Assoc(a, front, [p]);
      MeasureAppend(sha384, ld, a, front);
      MeasureSnoc(sha384, ld, a + front, p);
      MeasureSnoc(sha384, Measure(sha384, ld, a), front, p);
    }
  }

  /** What one turn of the loop over normal pages does to the digest. */
  lemma NormalStep(sha384: Hash, ld: Digest, gpa: U64, data: Bytes, i: nat)
    requires Aligned(|data|) && SpanFits(gpa, |data|) && PAGE * i < |data|
    ensures PAGE * i + PAGE <= |data| && gpa + PAGE * i < U64_LIMIT && i < |NormalPages(gpa, data)|
    ensures Measure(sha384, ld, NormalPages(gpa, data)[..i + 1]) ==
            sha384(PageInfo(Measure(sha384, ld, NormalPages(gpa, data)[..i]), Normal.Code(), gpa + PAGE * i,
                            sha384(data[PAGE * i..PAGE * i + PAGE])))
  {
    NormalPageAt(gpa, data, i);
    NextPage(sha384, ld, NormalPages(gpa, data), i);
  }

  lemma ZeroStep(sha384: Hash, ld: Digest, gpa: U64, len: nat, i: nat)
    requires Aligned(len) && SpanFits(gpa, len) && PAGE * i < len
    ensures PAGE * i + PAGE <= len && gpa + PAGE * i < U64_LIMIT && i < |ZeroPages(gpa, len)|
    ensures Measure(sha384, ld, ZeroPages(gpa, len)[..i + 1]) ==
            sha384(PageInfo(Measure(sha384, ld, ZeroPages(gpa, len)[..i]), Zero.Code(), gpa + PAGE * i, ZEROS))
  {
    ZeroPageAt(gpa, len, i);
    NextPage(sha384, ld, ZeroPages(gpa, len), i);
  }

  /** The guest context while it is being updated. */
  class Gctx {
    var ld: Digest
    const sha384: Hash

    constructor (sha384: Hash)
      ensures ld == ZEROS && this.sha384 == sha384
    {
      this.ld := ZEROS;
      this.sha384 := sha384;
    }

    constructor FromSeed(sha384: Hash, seed: Digest)
      ensures ld == seed && this.sha384 == sha384
    {
      this.ld := seed;
      this.sha384 := sha384;
    }

    /** One link of the chain.  The length check passes exactly for 48-byte contents. */
    method Update(code: Byte, gpa: U64, contents: Bytes) returns (r: Result<(), GctxError>)
      modifies this`ld
      ensures r.Success? <==> |contents| == LD_SIZE
      ensures r.Success? ==> r == Success(()) && ld == sha384(PageInfo(old(ld), code, gpa, contents))
      ensures r.Failure? ==> ld == old(ld) && r.error == InvalidPageSize(64 + |contents|, 0x70)
    {
      var pageInfo: Bytes := ld;
      pageInfo := pageInfo + contents;
      pageInfo := pageInfo + LeBytes(0x70, 2);
      pageInfo := pageInfo + [code, 0];
      pageInfo := pageInfo + [0, 0, 0, 0];
      pageInfo := pageInfo + LeBytes(gpa, 8);
      if |pageInfo| != 0x70 {
        return Failure(InvalidPageSize(|pageInfo|, 0x70));
      }
      ld := sha384(pageInfo);
      r := Success(());
    }

    /** The loop over the pages of a normal update. */
    method UpdateNormal(gpa: U64, data: Bytes) returns (r: Result<(), GctxError>)
      requires Aligned(|data|) && SpanFits(gpa, |data|)
      modifies this`ld
      ensures r == Success(()) && ld == Measure(sha384, old(ld), NormalPages(gpa, data))
    {
      var offset := 0;
      ghost var pages := NormalPages(gpa, data);
      ghost var i := 0;
      MeasureNone(old(ld));
      while offset < |data|
        invariant offset == PAGE * i && i <= |pages|
        invariant ld == Measure(sha384, old(ld), pages[..i])
      {
        NormalStep(sha384, old(ld), gpa, data, i);
        r := Update(Normal.Code(), gpa + offset, sha384(data[offset..offset + 4096]));
        if r.Failure? { return; }
        offset := offset + 4096;
        i := i + 1;
      }
      assert pages[..i] == pages;
      r := Success(());
    }

    /** The loop over the pages of a zero update. */
    method UpdateZero(gpa: U64, length: nat) returns (r: Result<(), GctxError>)
      requires Aligned(length) && SpanFits(gpa, length)
      modifies this`ld
      ensures r == Success(()) && ld == Measure(sha384, old(ld), ZeroPages(gpa, length))
    {
      var offset := 0;
      ghost var pages := ZeroPages(gpa, length);
      ghost var i := 0;
      MeasureNone(old(ld));
      while offset < length
        invariant offset == PAGE * i && i <= |pages|
        invariant ld == Measure(sha384, old(ld), pages[..i])
      {
        ZeroStep(sha384, old(ld), gpa, length, i);
        r := Update(Zero.Code(), gpa + offset, ZEROS);
        if r.Failure? { return; }
        offset := offset + 4096;
        i := i + 1;
      }
      assert pages[..i] == pages;
      r := Success(());
    }

    /** `update_page`: on success the digest is that of the pages, in order; on failure it
        is untouched. */
    method UpdatePage(ptype: PageType, gpa: U64, contents: Option<Bytes>, length: Option<nat>)
        returns (r: Result<(), GctxError>)
      requires SpanFits(gpa, SpanOf(ptype, contents, length))
      modifies this`ld
      ensures match PagesOf(ptype, gpa, contents, length)
              case Failure(e) => r == Failure(e) && ld == old(ld)
              case Success(pages) => r == Success(()) && ld == Measure(sha384, old(ld), pages)
    {
      match ptype
      case Normal =>
        if contents.None? { return Failure(MissingData); }
        if |contents.value| % 4096 != 0 { return Failure(InvalidBlockSize); }
        r := UpdateNormal(gpa, contents.value);
      case Vmsa =>
        if contents.None? { return Failure(MissingData); }
        if |contents.value| % 4096 != 0 { return Failure(InvalidBlockSize); }
        MeasureOne(ld, Page(Vmsa, VMSA_GPA, contents.value));
        r := Update(Vmsa.Code(), VMSA_GPA, sha384(contents.value));
      case Zero =>
        if length.None? { return Failure(MissingBlockSize); }
        if length.value % 4096 != 0 { return Failure(InvalidBlockSize); }
        r := UpdateZero(gpa, length.value);
      case _ =>
        MeasureOne(ld, Page(ptype, gpa, []));
        r := Update(ptype.Code(), gpa, ZEROS);
    }

    lemma MeasureOne(start: Digest, p: Page)
      ensures Measure(sha384, start, [p]) == sha384(InfoOf(start, p.Measured(sha384)))
    {
      MeasureNone(start);
      MeasureSnoc(sha384, start, [], p);
      assert [] + [p] == [p];
    }

    lemma MeasureNone(start: Digest)
      ensures Measure(sha384, start, []) == start
    {
      assert Records(sha384, []) == [];
    }
  }

  // ---------- the page-splitting law ----------

  /** Normal pages may be given to the firmware in any number of aligned pieces. */
  lemma SplitNormal(sha384: Hash, ld: Digest, gpa: U64, a: Bytes, b: Bytes)
    requires Aligned(|a|) && Aligned(|b|) && gpa + |a| < U64_LIMIT && SpanFits(gpa, |a| + |b|)
    ensures NormalPages(gpa, a + b) == NormalPages(gpa, a) + NormalPages(gpa + |a|, b)
    ensures Measure(sha384, ld, NormalPages(gpa, a + b)) ==
            Measure(sha384, Measure(sha384, ld, NormalPages(gpa, a)), NormalPages(gpa + |a|, b))
  {
    var n, m := |a| / PAGE, |b| / PAGE;
    assert |a| == PAGE * n && |b| == PAGE * m && |a + b| == PAGE * (n + m);
    forall i | 0 <= i < n + m
      ensures NormalPages(gpa, a + b)[i] == (NormalPages(gpa, a) + NormalPages(gpa + |a|, b))[i]
    {
      SliceOfSum(a, b, n, i);
    }
    MeasureAppend(sha384, ld, NormalPages(gpa, a), NormalPages(gpa + |a|, b));
  }

  lemma SliceOfSum(a: Bytes, b: Bytes, n: nat, i: nat)
    requires |a| == PAGE * n && PAGE * (i + 1) <= |a| + |b|
    ensures (a + b)[PAGE * i..PAGE * (i + 1)] ==
            if i < n then a[PAGE * i..PAGE * (i + 1)] else b[PAGE * (i - n)..PAGE * (i - n + 1)]
  {
  }

  lemma SplitZero(sha384: Hash, ld: Digest, gpa: U64, a: nat, b: nat)
    requires Aligned(a) && Aligned(b) && gpa + a < U64_LIMIT && SpanFits(gpa, a + b)
    ensures ZeroPages(gpa, a + b) == ZeroPages(gpa, a) + ZeroPages(gpa + a, b)
    ensures Measure(sha384, ld, ZeroPages(gpa, a + b)) ==
            Measure(sha384, Measure(sha384, ld, ZeroPages(gpa, a)), ZeroPages(gpa + a, b))
  {
    assert a == PAGE * (a / PAGE) && b == PAGE * (b / PAGE);
    assert ZeroPages(gpa, a + b) == ZeroPages(gpa, a) + ZeroPages(gpa + a, b);
    MeasureAppend(sha384, ld, ZeroPages(gpa, a), ZeroPages(gpa + a, b));
  }

  // ---------- binding ----------

  /** What two page histories with the same digest amount to. */
  datatype Evidence =
    | Same
    | Collision(x: Bytes, y: Bytes)
    | ZeroPreimage(x: Bytes)
  {
    /** The evidence really breaks the hash, on inputs of the stated kind. */
    predicate Breaks(sha384: Hash) {
      match this
      case Same => false
      case Collision(x, y) => x != y && sha384(x) == sha384(y)
      case ZeroPreimage(x) => sha384(x) == ZEROS
    }

    /** ... on two structures or two pages, or on one structure that hashes to zeros ... */
    predicate OnInfoOrPages() {
      OnInfo() || (Collision? && |x| == PAGE && |y| == PAGE)
    }

    /** ... and on inputs of the size of a PAGE_INFO structure. */
    predicate OnInfo() {
      match this
      case Same => true
      case Collision(x, y) => |x| == 0x70 && |y| == 0x70
      case ZeroPreimage(x) => |x| == 0x70
    }
  }

  /** Walks two chains back from their ends to the first place where they part. */
  function Compare(sha384: Hash, a: seq<Record>, b: seq<Record>): Evidence
    decreases |a|
  {
    if a == [] && b == [] then Same
    else if a == [] then ZeroPreimage(LastInfo(sha384, b))
    else if b == [] then ZeroPreimage(LastInfo(sha384, a))
    else if LastInfo(sha384, a) != LastInfo(sha384, b) then Collision(LastInfo(sha384, a), LastInfo(sha384, b))
    else Compare(sha384, a[..|a|-1], b[..|b|-1])
  }

  function LastInfo(sha384: Hash, a: seq<Record>): (s: Bytes)
    requires a != []
    ensures |s| == 0x70
  {
    InfoOf(Extend(sha384, ZEROS, a[..|a|-1]), a[|a|-1])
  }

  lemma CodeInjective(p: PageType, q: PageType)
    requires p.Code() == q.Code()
    ensures p == q
  {
  }

  /** A PAGE_INFO structure determines the digest before it and the record. */
  lemma InfoInjective(ld: Digest, r: Record, ld': Digest, r': Record)
    requires InfoOf(ld, r) == InfoOf(ld', r')
    ensures ld == ld' && r == r'
  {
    var a, a' := ld + r.contents, ld' + r'.contents;
    var len: Bytes := LeBytes(0x70, 2);
    var code: Bytes, code': Bytes := [r.ptype.Code(), 0], [r'.ptype.Code(), 0];
    var zeros: Bytes := [0, 0, 0, 0];
    SplitEqual(a + len + code + zeros, LeBytes(r.gpa, 8), a' + len + code' + zeros, LeBytes(r'.gpa, 8));
    SplitEqual(a + len + code, zeros, a' + len + code', zeros);
    SplitEqual(a + len, code, a' + len, code');
    SplitEqual(a, len, a', len);
    SplitEqual(ld, r.contents, ld', r'.contents);
    assert code[0] == code'[0];
    CodeInjective(r.ptype, r'.ptype);
    Powers();
    LeInjective(r.gpa, r'.gpa, 8);
  }

  lemma LastInjective(sha384: Hash, a: seq<Record>, b: seq<Record>)
    requires a != [] && b != [] && LastInfo(sha384, a) == LastInfo(sha384, b)
    ensures a[|a|-1] == b[|b|-1]
    ensures Extend(sha384, ZEROS, a[..|a|-1]) == Extend(sha384, ZEROS, b[..|b|-1])
  {
    InfoInjective(Extend(sha384, ZEROS, a[..|a|-1]), a[|a|-1], Extend(sha384, ZEROS, b[..|b|-1]), b[|b|-1]);
  }

  lemma ExtendLast(sha384: Hash, a: seq<Record>)
    requires a != []
    ensures Extend(sha384, ZEROS, a) == sha384(LastInfo(sha384, a))
  {
  }

  lemma SameEnds<T>(a: seq<T>, b: seq<T>)
    requires a != [] && b != [] && a[..|a|-1] == b[..|b|-1] && a[|a|-1] == b[|b|-1]
    ensures a == b
  {
    assert a == a[..|a|-1] + [a[|a|-1]];
    assert b == b[..|b|-1] + [b[|b|-1]];
  }

  /** Launch-digest binding: histories from the all-zero digest with the same digest are the
      same, or the walk exhibits two distinct 112-byte inputs with one hash, or a 112-byte
      input that hashes to all zeros. */
  lemma {:induction false} Binding(sha384: Hash, a: seq<Record>, b: seq<Record>)
    requires Extend(sha384, ZEROS, a) == Extend(sha384, ZEROS, b)
    ensures Compare(sha384, a, b).OnInfo()
    ensures if Compare(sha384, a, b).Same? then a == b else Compare(sha384, a, b).Breaks(sha384)
    decreases |a|
  {
    if a == [] && b == [] {
    } else if a == [] {
      ExtendLast(sha384, b);
    } else if b == [] {
      ExtendLast(sha384, a);
    } else {
      ExtendLast(sha384, a);
      ExtendLast(sha384, b);
      if LastInfo(sha384, a) == LastInfo(sha384, b) {
        LastInjective(sha384, a, b);
        Binding(sha384, a[..|a|-1], b[..|b|-1]);
        assert Compare(sha384, a, b) == Compare(sha384, a[..|a|-1], b[..|b|-1]);
        if Compare(sha384, a, b).Same? { SameEnds(a, b); }
      }
    }
  }

  /** The first position at which two page lists with equal records differ, as a collision
      on page contents. */
  function ContentEvidence(a: seq<Page>, b: seq<Page>): Evidence {
    if a == [] || b == [] then Same
    else if a[0] != b[0] then Collision(a[0].data, b[0].data)
    else ContentEvidence(a[1..], b[1..])
  }

  lemma {:induction false} ContentBinding(sha384: Hash, a: seq<Page>, b: seq<Page>)
    requires Records(sha384, a) == Records(sha384, b)
    requires (forall p :: p in a ==> p.Valid()) && (forall p :: p in b ==> p.Valid())
    ensures ContentEvidence(a, b).Same? ==> a == b
    ensures !ContentEvidence(a, b).Same? ==> ContentEvidence(a, b).Breaks(sha384)
  {
    if a != [] {
      assert Records(sha384, a)[0] == Records(sha384, b)[0];
      assert a[0].Valid() && b[0].Valid();
      if a[0] == b[0] {
        assert Records(sha384, a)[1..] == Records(sha384, a[1..]);
        assert Records(sha384, b)[1..] == Records(sha384, b[1..]);
        ContentBinding(sha384, a[1..], b[1..]);
        assert a == [a[0]] + a[1..] && b == [b[0]] + b[1..];
      }
    }
  }

  lemma {:induction false} ContentSize(sha384: Hash, a: seq<Page>, b: seq<Page>)
    requires Records(sha384, a) == Records(sha384, b)
    requires (forall p :: p in a ==> p.Valid() && p.Single()) && (forall p :: p in b ==> p.Valid() && p.Single())
    ensures ContentEvidence(a, b).OnInfoOrPages()
  {
    if a != [] && b != [] {
      assert a[0] in a && b[0] in b;
      assert Records(sha384, a)[0] == Records(sha384, b)[0];
      if a[0] == b[0] {
        assert Records(sha384, a)[1..] == Records(sha384, a[1..]);
        assert Records(sha384, b)[1..] == Records(sha384, b[1..]);
        ContentSize(sha384, a[1..], b[1..]);
      }
    }
  }

  function PageEvidence(sha384: Hash, a: seq<Page>, b: seq<Page>): Evidence {
    var e := Compare(sha384, Records(sha384, a), Records(sha384, b));
    if e.Same? then ContentEvidence(a, b) else e
  }

  /** Lifted to pages: equal digests mean equal pages, or the hash is broken.  Where contents are
      single pages the break is on two 112-byte structures, on two 4096-byte pages, or on a
      112-byte structure that hashes to zeros. */
  lemma PageBinding(sha384: Hash, a: seq<Page>, b: seq<Page>)
    requires Measure(sha384, ZEROS, a) == Measure(sha384, ZEROS, b)
    requires (forall p :: p in a ==> p.Valid()) && (forall p :: p in b ==> p.Valid())
    ensures a == b || PageEvidence(sha384, a, b).Breaks(sha384)
    ensures (forall p :: p in a ==> p.Single()) && (forall p :: p in b ==> p.Single()) ==>
              PageEvidence(sha384, a, b).OnInfoOrPages()
  {
    Binding(sha384, Records(sha384, a), Records(sha384, b));
    if Compare(sha384, Records(sha384, a), Records(sha384, b)).Same? {
      ContentBinding(sha384, a, b);
      if (forall p :: p in a ==> p.Single()) && (forall p :: p in b ==> p.Single()) {
        ContentSize(sha384, a, b);
      }
    }
  }
}
